/** The page's state machine (the `App` component): which form is shown,
    the sign-in/sign-up mode, the session, the form fields, and how each
    button and form submission changes them. Each handler is one atomic
    step; an event whose button or form is not on screen changes nothing. */
module Flow {

  import opened UserStore
  import Otp
  import Captcha

  /** `currentView`. `SuccessView` is declared by the page but never set. */
  datatype View = AuthView | ForgotView | OtpView | CaptchaView | ResetView | SuccessView

  /** `authMode`. */
  datatype AuthMode = SignInMode | SignUpMode

  /** The minimum length `handlePasswordReset` accepts, in the units of
      JavaScript's `length`. */
  const MinPasswordLength: nat := 8

  /** JavaScript's `length` of a string: the number of UTF-16 code units.
      A character outside the Basic Multilingual Plane is a surrogate pair
      and counts twice. */
  function Utf16Length(s: string): (n: nat)
    ensures |s| <= n <= 2 * |s|
    ensures (forall k :: 0 <= k < |s| ==> s[k] as int < 0x1_0000) ==> n == |s|
    ensures |s| == 1 ==> n == if s[0] as int < 0x1_0000 then 1 else 2
  {
    if |s| == 0 then 0
    else Utf16Length(s[..|s| - 1]) + (if s[|s| - 1] as int < 0x1_0000 then 1 else 2)
  }

  /** The code-unit length of a concatenation is the sum of the parts'. */
  lemma {:induction false} Utf16LengthAppend(a: string, b: string)
    ensures Utf16Length(a + b) == Utf16Length(a) + Utf16Length(b)
    decreases |b|
  {
    if |b| == 0 {
      assert a + b == a;
    } else {
      var b' := b[..|b| - 1];
      assert (a + b)[..|a + b| - 1] == a + b';
      assert (a + b)[|a + b| - 1] == b[|b| - 1];
      Utf16LengthAppend(a, b');
    }
  }

  /** Four emoji are four characters but eight code units: long enough for
      the page's reset guard. */
  lemma FourEmojiAreEightUnits()
    ensures |"\U{1F600}\U{1F600}\U{1F600}\U{1F600}"| == 4
    ensures Utf16Length("\U{1F600}\U{1F600}\U{1F600}\U{1F600}") == MinPasswordLength
  {
    var e := "\U{1F600}";
    assert Utf16Length(e) == 2 by { assert e[..0] == []; }
    Utf16LengthAppend(e, e);
    assert "\U{1F600}\U{1F600}\U{1F600}\U{1F600}" == (e + e) + (e + e);
    Utf16LengthAppend(e + e, e + e);
  }

  datatype App = App(
    db: seq<UserData>,
    view: View,
    mode: AuthMode,
    loggedIn: bool,
    userName: string,
    email: string,
    password: string,
    name: string,
    otp: string,
    generatedOtp: string,
    captchaItems: seq<string>,
    captcha: Captcha.CaptchaState,
    newPassword: string,
    suggestedPassword: string)

  /** What the user can do. Random draws the page makes while handling an
      event are carried by the event: the OTP number, the item shuffle, the
      grid draws, the suggested password. */
  datatype Event =
    | EditEmail(text: string)
    | EditPassword(text: string)
    | EditName(text: string)
    | SubmitAuth
    | ToggleMode
    | OpenForgot
    | SubmitForgot(otpDraw: int)
    | EditOtp(text: string)
    | SubmitOtp(picks: seq<nat>, fill: seq<nat>, positions: seq<seq<nat>>)
    | ResendOtp(otpDraw: int)
    | ClickCell(index: nat)
    | VerifyCaptcha(suggestion: string)
    | EditNewPassword(text: string)
    | UseSuggested
    | RegenerateSuggestion(suggestion: string)
    | SubmitReset
    | TryAgain(fill: seq<nat>, positions: seq<seq<nat>>)
    | BackToAuth
    | Logout

  /** The page as first rendered: a reachable-state start, logged out on the
      sign-in form with every field empty. */
  function Init(): (s: App)
    ensures Inv(s)
    ensures s.db == InitialStore() && s.view == AuthView && s.mode == SignInMode && !s.loggedIn
    ensures s.email == "" && s.password == "" && s.name == "" && s.otp == "" && s.generatedOtp == ""
  {
    App(InitialStore(), AuthView, SignInMode, false, "", "", "", "", "", "", [], Captcha.Mounted([]), "", "")
  }

  /** The event's control is on screen. Logged in, the page shows only the
      Logout button; otherwise the controls of the current view. The four
      "back" buttons of the forgot, OTP, CAPTCHA and reset views all set the
      view to `auth` and are one event here. */
  function Enabled(s: App, e: Event): (r: bool)
    ensures s.loggedIn ==> (r <==> e.Logout?)
    ensures e.Logout? ==> (r <==> s.loggedIn)
    ensures !s.loggedIn && s.view == SuccessView ==> !r
  {
    if s.loggedIn then e.Logout?
    else match e
      case EditEmail(_) => s.view == AuthView || s.view == ForgotView
      case EditPassword(_) => s.view == AuthView
      case EditName(_) => s.view == AuthView && s.mode == SignUpMode
      case SubmitAuth => s.view == AuthView
      case ToggleMode => s.view == AuthView
      case OpenForgot => s.view == AuthView && s.mode == SignInMode
      case SubmitForgot(_) => s.view == ForgotView
      case EditOtp(_) => s.view == OtpView
      case SubmitOtp(_, _, _) => s.view == OtpView
      case ResendOtp(_) => s.view == OtpView
      case ClickCell(i) => s.view == CaptchaView && i < |s.captcha.grid|
      case VerifyCaptcha(_) => s.view == CaptchaView
      case EditNewPassword(_) => s.view == ResetView
      case UseSuggested => s.view == ResetView
      case RegenerateSuggestion(_) => s.view == ResetView
      case SubmitReset => s.view == ResetView
      case TryAgain(_, _) => s.view == ResetView
      case BackToAuth => s.view in {ForgotView, OtpView, CaptchaView, ResetView}
      case Logout => false
  }

  /** The random draws an event carries are ones `Math.random` can produce. */
  predicate DrawsInRange(s: App, e: Event)
  {
    match e
    case SubmitForgot(d) => 100000 <= d <= 999999
    case ResendOtp(d) => 100000 <= d <= 999999
    case SubmitOtp(picks, fill, positions) =>
      Captcha.ValidPicks(picks) && Captcha.DrawFits(Captcha.CaptchaItems(picks), fill, positions)
    case TryAgain(fill, positions) => Captcha.DrawFits(s.captchaItems, fill, positions)
    case _ => true
  }

  /** `handleSignIn` after its delay. */
  function SignInStep(s: App): (r: App)
    ensures r == s.(loggedIn := r.loggedIn, userName := r.userName)
    ensures !(exists i :: 0 <= i < |s.db| && s.db[i].email == s.email && s.db[i].password == s.password) ==> r == s
    ensures (exists i :: 0 <= i < |s.db| && s.db[i].email == s.email && s.db[i].password == s.password) ==>
      r.loggedIn
      && (exists i :: 0 <= i < |s.db| && s.db[i].email == s.email && s.db[i].password == s.password
            && s.db[i].name == r.userName)
  {
    match SignInMatch(s.db, s.email, s.password)
    case Some(u) => s.(loggedIn := true, userName := u.name)
    case None => s
  }

  /** `handleSignUp` after its delay. */
  function SignUpStep(s: App): (r: App)
    ensures r == s.(db := r.db, loggedIn := r.loggedIn, userName := r.userName)
    ensures Registered(s.db, s.email) ==> r == s
    ensures !Registered(s.db, s.email) ==>
      && r.loggedIn && r.userName == s.name
      && |r.db| == |s.db| + 1 && r.db[..|s.db|] == s.db
      && SignInMatch(r.db, s.email, s.password) == Some(UserData(s.email, s.password, s.name))
  {
    match SignUp(s.db, s.email, s.password, s.name)
    case Created(db) =>
      SignInAfterSignUp(s.db, s.email, s.password, s.name);
      s.(db := db, loggedIn := true, userName := s.name)
    case Refused(_) => s
  }

  /** `handleForgotPassword`: an empty or unknown email is refused;
      otherwise a fresh code is generated and the OTP form is shown. */
  function ForgotStep(s: App, otpDraw: int): (r: App)
    requires 100000 <= otpDraw <= 999999
    ensures r == s.(generatedOtp := r.generatedOtp, view := r.view)
    ensures s.email == "" || !Registered(s.db, s.email) ==> r == s
    ensures s.email != "" && Registered(s.db, s.email) ==>
      && r.view == OtpView
      && |r.generatedOtp| == Otp.CodeLength && Otp.AllDigits(r.generatedOtp)
      && Otp.DecimalValue(r.generatedOtp) == otpDraw
  {
    if s.email == "" then s
    else if FindByEmail(s.db, s.email).None? then s
    else s.(generatedOtp := Otp.GenerateOtp(otpDraw), view := OtpView)
  }

  /** `handleOtpVerify`: an exact match against the last generated code
      draws the CAPTCHA items and mounts a fresh CAPTCHA. */
  function OtpStep(s: App, picks: seq<nat>, fill: seq<nat>, positions: seq<seq<nat>>): (r: App)
    requires Captcha.ValidPicks(picks)
    requires Captcha.DrawFits(Captcha.CaptchaItems(picks), fill, positions)
    ensures r == s.(captchaItems := r.captchaItems, view := r.view, captcha := r.captcha)
    ensures s.otp != s.generatedOtp ==> r == s
    ensures s.otp == s.generatedOtp ==>
      && r.view == CaptchaView
      && |r.captchaItems| == Captcha.ItemCount
      && (forall w :: w in r.captchaItems ==> w in Captcha.ItemPool())
      && |r.captcha.grid| == Captcha.GridSize
      && r.captcha.selected == {} && r.captcha.found == {}
  {
    if s.otp == s.generatedOtp then
      var items := Captcha.CaptchaItems(picks);
      s.(captchaItems := items, view := CaptchaView, captcha := Captcha.Mounted(Captcha.GridSpec(items, fill, positions)))
    else s
  }

  /** The CAPTCHA's Verify button: on a pass `handleCaptchaVerify` offers a
      suggested password and shows the reset form; on a failure the CAPTCHA
      clears its selection and found items. */
  function CaptchaVerifyStep(s: App, suggestion: string): (r: App)
    ensures r == s.(suggestedPassword := r.suggestedPassword, view := r.view, captcha := r.captcha)
    ensures |s.captcha.found| >= Captcha.MinItemsShown(|s.captchaItems|) ==>
      r.view == ResetView && r.suggestedPassword == suggestion && r.captcha == s.captcha
    ensures |s.captcha.found| < Captcha.MinItemsShown(|s.captchaItems|) ==>
      && r.view == s.view && r.captcha.grid == s.captcha.grid
      && r.captcha.selected == {} && r.captcha.found == {}
  {
    var r := Captcha.Verify(s.captchaItems, s.captcha);
    if r.passed then s.(suggestedPassword := suggestion, view := ResetView)
    else s.(captcha := r.state)
  }

  /** `handlePasswordReset`: a new password shorter than eight UTF-16 code
      units is refused; otherwise the account's password is overwritten and
      the page returns to sign-in with the password and OTP fields cleared. */
  function ResetStep(s: App): (r: App)
    ensures r == s.(db := r.db, view := r.view, mode := r.mode, password := r.password, otp := r.otp,
                    newPassword := r.newPassword)
    ensures Utf16Length(s.newPassword) < MinPasswordLength ==> r == s
    ensures Utf16Length(s.newPassword) >= MinPasswordLength ==>
      && r.view == AuthView && r.mode == SignInMode
      && r.password == "" && r.otp == "" && r.newPassword == ""
      && |r.db| == |s.db|
      && forall i :: 0 <= i < |s.db| ==>
           r.db[i].email == s.db[i].email && r.db[i].name == s.db[i].name
           && (r.db[i].password == s.db[i].password || s.db[i].email == s.email)
  {
    if Utf16Length(s.newPassword) < MinPasswordLength then s
    else s.(db := ResetPassword(s.db, s.email, s.newPassword), view := AuthView, mode := SignInMode,
            password := "", otp := "", newPassword := "")
  }

  /** One user action. */
  function Step(s: App, e: Event): (r: App)
    requires DrawsInRange(s, e)
    ensures r.db != s.db ==> e.SubmitAuth? || e.SubmitReset?
    ensures r.generatedOtp != s.generatedOtp ==> e.SubmitForgot? || e.ResendOtp?
    ensures r.captchaItems != s.captchaItems ==> e.SubmitOtp?
    ensures r.loggedIn != s.loggedIn ==> e.SubmitAuth? || e.Logout?
  {
    if !Enabled(s, e) then s
    else match e
      case EditEmail(t) => s.(email := t)
      case EditPassword(t) => s.(password := t)
      case EditName(t) => s.(name := t)
      case SubmitAuth => if s.mode == SignInMode then SignInStep(s) else SignUpStep(s)
      case ToggleMode =>
        s.(mode := if s.mode == SignInMode then SignUpMode else SignInMode, email := "", password := "", name := "")
      case OpenForgot => s.(view := ForgotView)
      case SubmitForgot(d) => ForgotStep(s, d)
      case EditOtp(t) => s.(otp := Otp.SanitizeOtpInput(t))
      case SubmitOtp(picks, fill, positions) => OtpStep(s, picks, fill, positions)
      case ResendOtp(d) => s.(generatedOtp := Otp.GenerateOtp(d))
      case ClickCell(i) => s.(captcha := Captcha.CellClick(s.captchaItems, s.captcha, i))
      case VerifyCaptcha(suggestion) => CaptchaVerifyStep(s, suggestion)
      case EditNewPassword(t) => s.(newPassword := t)
      case UseSuggested => s.(newPassword := s.suggestedPassword)
      case RegenerateSuggestion(suggestion) => s.(suggestedPassword := suggestion)
      case SubmitReset => ResetStep(s)
      case TryAgain(fill, positions) =>
        s.(view := CaptchaView, captcha := Captcha.Mounted(Captcha.GridSpec(s.captchaItems, fill, positions)))
      case BackToAuth => s.(view := AuthView)
      case Logout => s.(loggedIn := false, userName := "", email := "", password := "", name := "")
  }

  // ----- reachable-state invariant -------------------------------------------

  /** What holds of every state the page can reach. */
  ghost predicate Inv(s: App)
  {
    && EmailsUnique(s.db)
    && s.view != SuccessView
    && (s.loggedIn ==> s.view == AuthView && exists i :: 0 <= i < |s.db| && s.db[i].name == s.userName)
    && (s.view in {OtpView, CaptchaView, ResetView} ==> s.email != "" && Registered(s.db, s.email))
    && (s.view == OtpView ==> |s.generatedOtp| == Otp.CodeLength && Otp.AllDigits(s.generatedOtp))
    && Otp.AllDigits(s.otp) && |s.otp| <= Otp.CodeLength
    && (s.view in {CaptchaView, ResetView} ==>
          |s.captchaItems| == Captcha.ItemCount
          && forall w :: w in s.captchaItems ==> w in Captcha.ItemPool() && Captcha.WordInAlphabet(w))
    && (s.view == CaptchaView ==> Captcha.WellFormed(s.captchaItems, s.captcha))
  }

  lemma SignUpStepPreservesInv(s: App)
    requires Inv(s) && s.view == AuthView
    ensures Inv(SignUpStep(s))
  {
    SignUpPreservesUniqueness(s.db, s.email, s.password, s.name);
    var r := SignUp(s.db, s.email, s.password, s.name);
    if r.Created? {
      assert r.db[|s.db|].name == s.name;
    }
  }

  lemma ResetStepPreservesInv(s: App)
    requires Inv(s) && s.view == ResetView && !s.loggedIn
    ensures Inv(ResetStep(s))
  {
    ResetPreservesUniqueness(s.db, s.email, s.newPassword);
  }

  lemma MountedGridWellFormed(items: seq<string>, fill: seq<nat>, positions: seq<seq<nat>>)
    requires Captcha.DrawFits(items, fill, positions)
    requires forall w :: w in items ==> Captcha.WordInAlphabet(w)
    ensures Captcha.WellFormed(items, Captcha.Mounted(Captcha.GridSpec(items, fill, positions)))
  {
  }

  /** The steps that only edit form fields, switch mode or view, or end
      the session keep the invariant. */
  lemma FieldStepsPreserveInv(s: App, e: Event)
    requires Inv(s) && DrawsInRange(s, e)
    requires e.EditEmail? || e.EditPassword? || e.EditName? || e.ToggleMode? || e.OpenForgot?
          || e.BackToAuth? || e.Logout?
    ensures Inv(Step(s, e))
  {
  }

  lemma OtpStepsPreserveInv(s: App, e: Event)
    requires Inv(s) && DrawsInRange(s, e)
    requires e.SubmitForgot? || e.EditOtp? || e.ResendOtp? || e.SubmitOtp?
    ensures Inv(Step(s, e))
  {
    if Enabled(s, e) && e.SubmitOtp? && s.otp == s.generatedOtp {
      var items := Captcha.CaptchaItems(e.picks);
      MountedGridWellFormed(items, e.fill, e.positions);
    }
  }

  lemma CaptchaStepsPreserveInv(s: App, e: Event)
    requires Inv(s) && DrawsInRange(s, e)
    requires e.ClickCell? || e.VerifyCaptcha? || e.TryAgain?
    ensures Inv(Step(s, e))
  {
    if Enabled(s, e) {
      match e
      case ClickCell(i) =>
        Captcha.ClickAndVerifyPreserveWellFormed(s.captchaItems, s.captcha, i);
      case VerifyCaptcha(_) =>
        Captcha.ClickAndVerifyPreserveWellFormed(s.captchaItems, s.captcha, 0);
      case TryAgain(fill, positions) =>
        MountedGridWellFormed(s.captchaItems, fill, positions);
    }
  }

  lemma ResetStepsPreserveInv(s: App, e: Event)
    requires Inv(s) && DrawsInRange(s, e)
    requires e.EditNewPassword? || e.UseSuggested? || e.RegenerateSuggestion? || e.SubmitReset?
    ensures Inv(Step(s, e))
  {
    if Enabled(s, e) && e.SubmitReset? {
      ResetStepPreservesInv(s);
    }
  }

  /** Every step keeps the invariant: emails stay unique, the OTP, CAPTCHA
      and reset forms are only ever shown for a registered email, the
      `success` view is never reached, and so on. */
  lemma StepPreservesInv(s: App, e: Event)
    requires Inv(s) && DrawsInRange(s, e)
    ensures Inv(Step(s, e))
  {
    if e.SubmitAuth? {
      if Enabled(s, e) && s.mode == SignUpMode {
        SignUpStepPreservesInv(s);
      }
    } else if e.SubmitForgot? || e.EditOtp? || e.ResendOtp? || e.SubmitOtp? {
      OtpStepsPreserveInv(s, e);
    } else if e.ClickCell? || e.VerifyCaptcha? || e.TryAgain? {
      CaptchaStepsPreserveInv(s, e);
    } else if e.EditNewPassword? || e.UseSuggested? || e.RegenerateSuggestion? || e.SubmitReset? {
      ResetStepsPreserveInv(s, e);
    } else {
      FieldStepsPreserveInv(s, e);
    }
  }

  // ----- the flow -------------------------------------------------------------

  /** The transitions the page's handlers and buttons make between views;
      every other step keeps the view. */
  predicate FlowEdge(from: View, to: View)
  {
    match (from, to)
    case (AuthView, ForgotView) => true
    case (ForgotView, OtpView) => true
    case (OtpView, CaptchaView) => true
    case (CaptchaView, ResetView) => true
    case (ResetView, CaptchaView) => true
    case (ResetView, AuthView) => true
    case (ForgotView, AuthView) => true
    case (OtpView, AuthView) => true
    case (CaptchaView, AuthView) => true
    case _ => false
  }

  /** Each step either keeps the view or follows one edge of the flow. */
  lemma StepFollowsFlow(s: App, e: Event)
    requires DrawsInRange(s, e)
    ensures Step(s, e).view == s.view || FlowEdge(s.view, Step(s, e).view)
  {
  }

  /** The OTP form is only entered from the forgot form, for a non-empty
      registered email, with a freshly generated six-digit code. */
  lemma EnterOtpOnlyForRegisteredEmail(s: App, e: Event)
    requires DrawsInRange(s, e)
    requires s.view != OtpView && Step(s, e).view == OtpView
    ensures s.view == ForgotView && e.SubmitForgot?
    ensures s.email != "" && Registered(s.db, s.email)
    ensures Step(s, e).generatedOtp == Otp.GenerateOtp(e.otpDraw)
  {
  }

  /** On the forgot form, submitting a non-empty registered email advances
      to the OTP form; anything else leaves the page as it was. */
  lemma ForgotSubmitOutcome(s: App, d: int)
    requires !s.loggedIn && s.view == ForgotView && 100000 <= d <= 999999
    ensures s.email != "" && Registered(s.db, s.email) ==> Step(s, SubmitForgot(d)).view == OtpView
    ensures !(s.email != "" && Registered(s.db, s.email)) ==> Step(s, SubmitForgot(d)) == s
  {
  }

  /** On the OTP form, submitting advances to the CAPTCHA exactly when the
      entered code equals the last generated one, and changes nothing
      otherwise. */
  lemma OtpSubmitOutcome(s: App, e: Event)
    requires !s.loggedIn && s.view == OtpView && e.SubmitOtp? && DrawsInRange(s, e)
    ensures Step(s, e).view == CaptchaView <==> s.otp == s.generatedOtp
    ensures s.otp != s.generatedOtp ==> Step(s, e) == s
    ensures s.otp == s.generatedOtp ==> Step(s, e).captcha.selected == {} && Step(s, e).captcha.found == {}
  {
  }

  /** Resend replaces the code to match and stays on the OTP form. */
  lemma ResendReplacesCode(s: App, d: int)
    requires !s.loggedIn && s.view == OtpView && 100000 <= d <= 999999
    ensures Step(s, ResendOtp(d)).generatedOtp == Otp.GenerateOtp(d)
    ensures Step(s, ResendOtp(d)).view == OtpView
    ensures Step(s, ResendOtp(d)).otp == s.otp
  {
  }

  /** Typing the code that was generated and submitting it always reaches
      the CAPTCHA: the input filter never mangles a generated code. */
  lemma TypingShownCodeAdvances(s: App, draw: int, picks: seq<nat>, fill: seq<nat>, positions: seq<seq<nat>>)
    requires !s.loggedIn && s.view == OtpView
    requires 100000 <= draw <= 999999 && s.generatedOtp == Otp.GenerateOtp(draw)
    requires DrawsInRange(s, SubmitOtp(picks, fill, positions))
    ensures Step(Step(s, EditOtp(s.generatedOtp)), SubmitOtp(picks, fill, positions)).view == CaptchaView
  {
    Otp.GeneratedCodeIsTypable(draw);
    EditOtpStep(s, s.generatedOtp);
    MatchingCodeAdvances(s.(otp := s.generatedOtp), picks, fill, positions);
  }

  lemma EditOtpStep(s: App, text: string)
    requires !s.loggedIn && s.view == OtpView
    ensures Step(s, EditOtp(text)) == s.(otp := Otp.SanitizeOtpInput(text))
  {
  }

  lemma MatchingCodeAdvances(s: App, picks: seq<nat>, fill: seq<nat>, positions: seq<seq<nat>>)
    requires !s.loggedIn && s.view == OtpView && s.otp == s.generatedOtp
    requires DrawsInRange(s, SubmitOtp(picks, fill, positions))
    ensures Step(s, SubmitOtp(picks, fill, positions)).view == CaptchaView
  {
  }

  /** The reset form is only entered from a CAPTCHA whose found items reach
      half the targets. */
  lemma EnterResetOnlyAfterCaptcha(s: App, e: Event)
    requires DrawsInRange(s, e)
    requires s.view != ResetView && Step(s, e).view == ResetView
    ensures s.view == CaptchaView && e.VerifyCaptcha?
    ensures 2 * |s.captcha.found| >= |s.captchaItems|
  {
  }

  /** A failed CAPTCHA verify keeps the CAPTCHA on screen and clears both of
      its sets. */
  lemma FailedCaptchaResets(s: App, suggestion: string)
    requires !s.loggedIn && s.view == CaptchaView && 2 * |s.captcha.found| < |s.captchaItems|
    ensures Step(s, VerifyCaptcha(suggestion)).view == CaptchaView
    ensures Step(s, VerifyCaptcha(suggestion)).captcha == Captcha.Mounted(s.captcha.grid)
  {
  }

  /** Sign-in logs in exactly when a stored record matches both fields,
      under that record's name, and never touches the store. */
  lemma SignInOutcome(s: App)
    requires !s.loggedIn && s.view == AuthView && s.mode == SignInMode
    ensures Step(s, SubmitAuth).db == s.db
    ensures Step(s, SubmitAuth).loggedIn <==>
      exists i :: 0 <= i < |s.db| && s.db[i].email == s.email && s.db[i].password == s.password
    ensures Step(s, SubmitAuth).loggedIn ==>
      exists i :: 0 <= i < |s.db| && s.db[i].email == s.email && s.db[i].password == s.password
        && s.db[i].name == Step(s, SubmitAuth).userName
    ensures !Step(s, SubmitAuth).loggedIn ==> Step(s, SubmitAuth) == s
  {
  }

  /** Sign-up with a taken email changes nothing; with a fresh one it
      appends exactly the new record and logs in under the given name. */
  lemma SignUpOutcome(s: App)
    requires !s.loggedIn && s.view == AuthView && s.mode == SignUpMode
    ensures Registered(s.db, s.email) ==> Step(s, SubmitAuth) == s
    ensures !Registered(s.db, s.email) ==>
      && Step(s, SubmitAuth).db == s.db + [UserData(s.email, s.password, s.name)]
      && Step(s, SubmitAuth).loggedIn
      && Step(s, SubmitAuth).userName == s.name
  {
    if !Registered(s.db, s.email) {
      var r := SignUp(s.db, s.email, s.password, s.name);
      assert r.db == r.db[..|s.db|] + [r.db[|s.db|]];
    }
  }

  /** A password shorter than eight code units is refused and the page
      stays as it was. */
  lemma ShortPasswordRefused(s: App)
    requires !s.loggedIn && s.view == ResetView && Utf16Length(s.newPassword) < MinPasswordLength
    ensures Step(s, SubmitReset) == s
  {
  }

  /** In a reachable state, an accepted reset changes only the password of
      the account being recovered, returns to sign-in, and from then on the
      new password signs that account in and the old one does not. */
  lemma ResetOutcome(s: App, oldPassword: string)
    requires Inv(s) && !s.loggedIn && s.view == ResetView && Utf16Length(s.newPassword) >= MinPasswordLength
    requires oldPassword != s.newPassword
    ensures Step(s, SubmitReset).view == AuthView && Step(s, SubmitReset).mode == SignInMode
    ensures |Step(s, SubmitReset).db| == |s.db|
    ensures forall i :: 0 <= i < |s.db| ==>
      var r := Step(s, SubmitReset).db[i];
      r.email == s.db[i].email && r.name == s.db[i].name
      && (r.password == s.db[i].password || s.db[i].email == s.email)
    ensures SignInMatch(Step(s, SubmitReset).db, s.email, s.newPassword).Some?
    ensures SignInMatch(Step(s, SubmitReset).db, s.email, oldPassword).None?
  {
    SignInAfterReset(s.db, s.email, oldPassword, s.newPassword);
  }

  /** Logout ends the session and clears the auth form. */
  lemma LogoutClearsSession(s: App)
    requires s.loggedIn
    ensures !Step(s, Logout).loggedIn && Step(s, Logout).userName == ""
    ensures Step(s, Logout).email == "" && Step(s, Logout).password == ""
    ensures Step(s, Logout).db == s.db
  {
  }

  /** While logged in, nothing but Logout does anything. */
  lemma LoggedInOnlyLogout(s: App, e: Event)
    requires s.loggedIn && !e.Logout? && DrawsInRange(s, e)
    ensures Step(s, e) == s
  {
  }

  // ----- runs -------------------------------------------------------------------

  ghost predicate RunInRange(s: App, events: seq<Event>)
    decreases |events|
  {
    |events| == 0 || (DrawsInRange(s, events[0]) && RunInRange(Step(s, events[0]), events[1..]))
  }

  /** The state after a sequence of user actions. */
  ghost function Run(s: App, events: seq<Event>): App
    requires RunInRange(s, events)
    decreases |events|
  {
    if |events| == 0 then s else Run(Step(s, events[0]), events[1..])
  }

  /** Every state reachable from the initial page satisfies the invariant. */
  lemma {:induction false} RunPreservesInv(s: App, events: seq<Event>)
    requires Inv(s) && RunInRange(s, events)
    ensures Inv(Run(s, events))
    decreases |events|
  {
    if |events| > 0 {
      StepPreservesInv(s, events[0]);
      RunPreservesInv(Step(s, events[0]), events[1..]);
    }
  }

  lemma RunCons(s: App, e: Event, rest: seq<Event>)
    requires DrawsInRange(s, e) && RunInRange(Step(s, e), rest)
    ensures RunInRange(s, [e] + rest) && Run(s, [e] + rest) == Run(Step(s, e), rest)
  {
    assert ([e] + rest)[1..] == rest;
  }

  /** Running two sequences of actions one after the other is running
      their concatenation. */
  lemma {:induction false} RunAppend(s: App, first: seq<Event>, second: seq<Event>)
    requires RunInRange(s, first) && RunInRange(Run(s, first), second)
    ensures RunInRange(s, first + second) && Run(s, first + second) == Run(Run(s, first), second)
    decreases |first|
  {
    if |first| > 0 {
      assert (first + second)[0] == first[0];
      assert (first + second)[1..] == first[1..] + second;
      RunAppend(Step(s, first[0]), first[1..], second);
    } else {
      assert first + second == second;
    }
  }

  /** Filling in the sign-up form and submitting it. */
  function SignUpForm(email: string, password: string, name: string): seq<Event>
  {
    [EditName(name), EditEmail(email), EditPassword(password), SubmitAuth]
  }

  /** Logging out, switching to sign-in, typing the credentials and
      submitting. */
  function SignInForm(email: string, password: string): seq<Event>
  {
    [Logout, ToggleMode, EditEmail(email), EditPassword(password), SubmitAuth]
  }

  /** The sign-up half: fill in the form and submit with a fresh email. */
  lemma SignUpRun(s: App, email: string, password: string, name: string)
    requires !s.loggedIn && s.view == AuthView && s.mode == SignUpMode
    requires !Registered(s.db, email)
    ensures RunInRange(s, SignUpForm(email, password, name))
    ensures var t := Run(s, SignUpForm(email, password, name));
      t.loggedIn && t.view == AuthView && t.mode == SignUpMode && t.db == s.db + [UserData(email, password, name)]
  {
    var s1 := s.(name := name);
    AuthFormSteps(s, name);
    var s2 := s1.(email := email);
    AuthFormSteps(s1, email);
    var s3 := s2.(password := password);
    AuthFormSteps(s2, password);
    SignUpOutcome(s3);
    var s4 := Step(s3, SubmitAuth);
    RunCons(s3, SubmitAuth, []);
    RunCons(s2, EditPassword(password), [SubmitAuth]);
    RunCons(s1, EditEmail(email), [EditPassword(password), SubmitAuth]);
    RunCons(s, EditName(name), [EditEmail(email), EditPassword(password), SubmitAuth]);
  }

  /** The sign-in half: log out, switch to sign-in, type the credentials and
      submit. */
  lemma SignInRun(s: App, email: string, password: string, name: string)
    requires s.loggedIn && s.view == AuthView && s.mode == SignUpMode
    requires SignInMatch(s.db, email, password) == Some(UserData(email, password, name))
    ensures RunInRange(s, SignInForm(email, password))
    ensures var t := Run(s, SignInForm(email, password));
      t.loggedIn && t.userName == name && t.db == s.db
  {
    var s5 := s.(loggedIn := false, userName := "", email := "", password := "", name := "");
    LogoutStep(s);
    var s6 := s5.(mode := SignInMode, email := "", password := "", name := "");
    AuthFormSteps(s5, email);
    var s7 := s6.(email := email);
    AuthFormSteps(s6, email);
    var s8 := s7.(password := password);
    AuthFormSteps(s7, password);
    SignInOutcome(s8);
    RunCons(s8, SubmitAuth, []);
    RunCons(s7, EditPassword(password), [SubmitAuth]);
    RunCons(s6, EditEmail(email), [EditPassword(password), SubmitAuth]);
    RunCons(s5, ToggleMode, [EditEmail(email), EditPassword(password), SubmitAuth]);
    RunCons(s, Logout, [ToggleMode, EditEmail(email), EditPassword(password), SubmitAuth]);
  }

  /** The session lifecycle end to end: sign up with a fresh email, log
      out, switch to sign-in, type the same credentials and submit, and the
      page greets the new account by name. */
  lemma SignUpLogoutSignIn(s: App, email: string, password: string, name: string)
    requires !s.loggedIn && s.view == AuthView && s.mode == SignUpMode
    requires !Registered(s.db, email)
    ensures RunInRange(s, SignUpForm(email, password, name) + SignInForm(email, password))
    ensures var t := Run(s, SignUpForm(email, password, name) + SignInForm(email, password));
      t.loggedIn && t.userName == name && t.db == s.db + [UserData(email, password, name)]
  {
    var first := SignUpForm(email, password, name);
    var second := SignInForm(email, password);
    SignUpRun(s, email, password, name);
    var mid := Run(s, first);
    SignInAfterSignUp(s.db, email, password, name);
    SignInRun(mid, email, password, name);
    RunAppend(s, first, second);
  }

  /** What the auth form's fields and mode switch do. */
  lemma AuthFormSteps(s: App, text: string)
    requires !s.loggedIn && s.view == AuthView
    ensures Step(s, EditEmail(text)) == s.(email := text)
    ensures Step(s, EditPassword(text)) == s.(password := text)
    ensures s.mode == SignUpMode ==> Step(s, EditName(text)) == s.(name := text)
    ensures s.mode == SignUpMode ==> Step(s, ToggleMode) == s.(mode := SignInMode, email := "", password := "", name := "")
  {
  }

  lemma LogoutStep(s: App)
    requires s.loggedIn
    ensures Step(s, Logout) == s.(loggedIn := false, userName := "", email := "", password := "", name := "")
  {
  }
}
