# Demo authentication page — a Dafny model

This project models the client-side logic of the standalone demo authentication page in `alert.tsx`. The page has:

- an in-memory mock user table of `{email, password, name}` records;
- a sign-in / sign-up form;
- a forgot-password flow that goes from the email form to a six-digit OTP, then to a 9x9 character-grid CAPTCHA, then to a new-password form;
- a session flag with a user name.

Everything is sequential and deterministic once the page's `Math.random` draws are passed in as arguments. Those draws are the OTP number, the shuffle of the CAPTCHA item pool, the grid's fill characters and placement cells, and the suggested strong password.

Modules:

- `UserStore` (`user_store.dfy`) models the mock table and its four operations:
  - find by credentials (sign-in);
  - find by email, then append (sign-up);
  - find by email (forgot password);
  - overwrite the password of the first record with a matching email (reset).

  It also states email uniqueness and proves that sign-up and reset preserve it.
- `Otp` (`otp.dfy`) models `generateOTP` as the decimal text of a draw in [100000, 999999], and the OTP field's input filter: strip the non-digits, then keep the first six characters.
- `Captcha` (`captcha.dfy`) models:
  - the choice of target items from the twelve-item pool;
  - `generateGrid`: 81 random cells, then one overwrite per item character, where later writes clobber earlier ones;
  - the selection toggle;
  - the order-free "item found" test;
  - the Verify threshold `2·|found| ≥ |targets|`, with its reset on failure.
- `Flow` (`flow.dfy`) models the `App` component as a state machine. Each event is one button press or form submission. An event whose control is not on screen leaves the state unchanged; when the user is logged in, only Logout is on screen. `Inv` is the invariant of every reachable state:
  - emails stay unique;
  - the OTP, CAPTCHA and reset forms are only ever shown for a registered, non-empty email;
  - the declared `success` view is never reached;
  - a logged-in name belongs to a stored record;
  - the OTP field always holds at most six digits;
  - a mounted CAPTCHA has 81 cells in `A-Z0-9`, and its found items are among its targets.

Three facts about the page that shape the flow:

- The reset form's "Try Again" button (alert.tsx:927) returns to the CAPTCHA with a freshly mounted grid.
- A successful reset returns to the sign-in form and does not log the user in.
- The `success` view is declared but never assigned, and the page renders no control for it.

## Model

| member | source | states |
|---|---|---|
| UserStore.InitialStore | alert.tsx:21-23 | the table starts with one demo record, so emails are unique, and `user@example.com` / `User@123` signs in as Demo User |
| UserStore.SignInMatch | alert.tsx:374 | a match is returned iff some record has exactly the given email and password, and the returned record is such a stored record |
| UserStore.SignInFindsFirstMatch | alert.tsx:374 | like `Array.find`, sign-in returns the first record in table order that matches both fields |
| UserStore.IndexOfEmail | alert.tsx:472 | `findIndex` gives -1 iff no record holds the email; otherwise the index of the first record that does |
| UserStore.FindByEmail | alert.tsx:395 | a record is found iff the email is registered; the found record carries that email and is in the table |
| UserStore.SignUp | alert.tsx:394-403 | refused iff the email is already registered; otherwise exactly one record `{email, password, name}` is appended and every earlier record is kept |
| UserStore.ResetPassword | alert.tsx:471-475 | only the password of the first record with the email changes; an unknown email leaves the table as it was |
| UserStore.SignUpPreservesUniqueness | alert.tsx:395-403 | sign-up keeps emails unique |
| UserStore.ResetPreservesUniqueness | alert.tsx:472-475 | password reset keeps emails unique |
| UserStore.SignInAfterSignUp | alert.tsx:374-407 | after a sign-up with a fresh email, sign-in with the same credentials finds exactly the new record |
| UserStore.SignInAfterReset | alert.tsx:472-477 | with unique emails, after a reset the new password signs the account in and the old one does not |
| Otp.Digits | alert.tsx:798 | the `\D` strip yields only digits, is no longer than its input, and leaves an all-digit text unchanged |
| Otp.DigitsAppend | alert.tsx:798 | the strip distributes over concatenation, so it keeps the digits in their input order |
| Otp.DigitsOfChar | alert.tsx:798 | a single character is kept iff it is a digit |
| Otp.SanitizeOtpInput | alert.tsx:798 | the filtered OTP has only digits, is at most 6 long, and is the prefix of length min(6, digit count) of the input's digits |
| Otp.SanitizeIdempotent | alert.tsx:798 | filtering an already filtered value changes nothing |
| Otp.SanitizeKeepsShortCodes | alert.tsx:798-800 | a string of at most six digits passes the filter unchanged |
| Otp.DecimalString | alert.tsx:362 | `toString` of a non-negative integer is a non-empty string of digits; DecimalRoundTrip proves it reads back as the number |
| Otp.DecimalRoundTrip | alert.tsx:362 | reading back the decimal text of n gives n |
| Otp.DecimalLength | alert.tsx:362 | a number in [10^(k-1), 10^k) prints as exactly k digits with no leading zero |
| Otp.GenerateOtp | alert.tsx:361-365 | a draw in [100000, 999999] gives a 6-digit code with a non-zero first digit that denotes the draw |
| Otp.GeneratedCodeIsTypable | alert.tsx:798 | every generated code survives the OTP input filter |
| Captcha.ItemPool | alert.tsx:53-55 | there are twelve candidate items, all spelt in `A-Z0-9` |
| Captcha.PoolDistinct | alert.tsx:53-55 | no item occurs twice in the pool |
| Captcha.CaptchaItems | alert.tsx:52-57 | whichever six pool positions the shuffle puts first, six pairwise distinct items are kept, each from the pool and spelt in `A-Z0-9` |
| Captcha.GenerateGrid | alert.tsx:60-79 | the source's fill-then-overwrite loops produce the grid in which each cell holds its last write, or the fill character if nothing was written there |
| Captcha.CellOrigin | alert.tsx:65-76 | every cell holds either its random fill character or a character placed by an item |
| Captcha.GridSpec | alert.tsx:60-79 | the grid has exactly 81 cells, and when the items are spelt in `A-Z0-9` every cell is in `A-Z0-9`; GenerateGrid's loops are proved to compute it |
| Captcha.UnclobberedWriteVisible | alert.tsx:70-76 | a placed character that no later write hits is visible in the grid |
| Captcha.Toggle | alert.tsx:239-246 | clicking flips the clicked cell's membership in the selection and no other cell's |
| Captcha.ToggleTwice | alert.tsx:239-246 | clicking the same cell twice restores the selection |
| Captcha.ItemFound | alert.tsx:249-252 | an item is found iff every one of its characters is among the selected cells' values, the `every`/`includes` test of the source |
| Captcha.SelectedValues | alert.tsx:251 | a character is among the selected values iff some selected in-grid cell holds it |
| Captcha.AllCharsSelected | alert.tsx:250-252 | the `every`/`includes` loop answers true iff each character of the item is shown by some selected cell |
| Captcha.CellClick | alert.tsx:238-258 | a click toggles the cell and keeps every found item; items newly found are targets the new selection spells, and every target it spells is found |
| Captcha.SelectAllFinds | alert.tsx:249-252 | with every cell selected, an item counts as found iff each of its characters occurs anywhere on the grid, which shows how permissive the order-free test is |
| Captcha.FoundGrowsOverClicks | alert.tsx:254-255 | over any run of clicks, found items are only added and the grid never changes |
| Captcha.MinItemsShown | alert.tsx:292 | the displayed minimum `ceil(n/2)` is the least m with 2m ≥ n |
| Captcha.Verify | alert.tsx:261-269 | Verify passes iff 2·|found| ≥ |targets|; a failure clears both the selection and the found items |
| Captcha.ThresholdIsDisplayedMinimum | alert.tsx:262 | Verify passes iff the found count reaches the displayed minimum `ceil(|targets|/2)` |
| Captcha.ClickAndVerifyPreserveWellFormed | alert.tsx:238-269 | clicks and verifies keep an 81-cell grid in `A-Z0-9`, selections within the grid, and found items among the targets |
| Flow.Init | alert.tsx:338-358 | the page starts in a state satisfying the reachable-state invariant: logged out on the sign-in form over the initial table, with the email, password, name, OTP and generated-code fields empty |
| Flow.Enabled | alert.tsx:513-945 | while logged in only Logout is on screen, Logout is on screen only while logged in, and the `success` view offers no control |
| Flow.SignInStep | alert.tsx:368-385 | the table is untouched; with no record matching both fields nothing changes; otherwise the user is logged in under the name of a record matching both fields; only the session flag and user name can change |
| Flow.SignUpStep | alert.tsx:388-410 | a registered email changes nothing; a fresh one extends the table by one record, keeps every earlier record, logs in under the typed name, and makes the typed credentials sign in to exactly the new record; only the table, the session flag and user name can change |
| Flow.ForgotStep | alert.tsx:413-438 | an empty or unknown email changes nothing; a registered one shows the OTP form with a six-digit code that denotes the draw, leaving the table and the typed code alone; only the generated code and the view can change |
| Flow.OtpStep | alert.tsx:441-451 | a wrong code changes nothing; the right one shows the CAPTCHA over six pool items, with an 81-cell grid and nothing selected or found; only the target items, the view and the CAPTCHA can change |
| Flow.CaptchaVerifyStep | alert.tsx:454-460 | reaching the displayed minimum of found items shows the reset form with the suggestion and keeps the CAPTCHA; falling short keeps the view and the grid and clears both sets; only the suggestion, the view and the CAPTCHA can change |
| Flow.ResetStep | alert.tsx:463-483 | a new password under 8 UTF-16 code units changes nothing; otherwise the page returns to sign-in with the password, OTP and new-password fields cleared, and the table keeps every email and name and changes passwords only of records holding the recovered email; only the table, view, mode and the password, OTP and new-password fields can change |
| Flow.Step | alert.tsx:368-501 | the table changes only on an auth or reset submission, the generated code only on a forgot submission or resend, the target items only on an OTP submission, and the session flag only on an auth submission or logout |
| Flow.Utf16Length | alert.tsx:466 | JavaScript's `length` counts one unit for a character inside the Basic Multilingual Plane and two for one at or above U+10000; with Utf16LengthAppend this fixes the count of every string |
| Flow.Utf16LengthAppend | alert.tsx:466 | the code-unit length of a concatenation is the sum of the parts' |
| Flow.FourEmojiAreEightUnits | alert.tsx:466 | four emoji are four characters but eight code units, enough for the reset guard |
| Flow.SignUpStepPreservesInv | alert.tsx:395-407 | a sign-up submission keeps the invariant |
| Flow.ResetStepPreservesInv | alert.tsx:463-483 | a reset submission keeps the invariant |
| Flow.MountedGridWellFormed | alert.tsx:234-236 | a CAPTCHA mounted with nothing selected or found, over items spelt in `A-Z0-9`, is well formed for every draw of the grid |
| Flow.FieldStepsPreserveInv | alert.tsx:486-501 | field edits, the mode switch, the forgot link, the back buttons and logout keep the invariant |
| Flow.OtpStepsPreserveInv | alert.tsx:413-451 | the forgot, OTP-edit, resend and OTP-submit steps keep the invariant |
| Flow.CaptchaStepsPreserveInv | alert.tsx:238-269 | cell clicks, CAPTCHA verify and Try Again keep the invariant |
| Flow.ResetStepsPreserveInv | alert.tsx:866-904 | the reset form's edits, Use, regenerate and submit keep the invariant |
| Flow.StepPreservesInv | alert.tsx:368-501 | every user action keeps emails unique, never reaches `success`, and shows the OTP/CAPTCHA/reset forms only for a registered email |
| Flow.RunPreservesInv | alert.tsx:368-501 | every state reached from a state satisfying the invariant satisfies it |
| Flow.StepFollowsFlow | alert.tsx:413-483 | each action keeps the view or moves along one edge: auth→forgot→otp→captcha→reset, reset→captcha, or back to auth |
| Flow.EnterOtpOnlyForRegisteredEmail | alert.tsx:413-438 | the OTP form is entered only from the forgot form, by submitting a non-empty registered email, with a freshly generated code |
| Flow.ForgotSubmitOutcome | alert.tsx:413-438 | submitting the forgot form advances iff the email is non-empty and registered; otherwise nothing changes |
| Flow.OtpSubmitOutcome | alert.tsx:441-451 | the OTP submit reaches the CAPTCHA iff the entered code equals the last generated code; a wrong code changes nothing; a right one mounts an empty CAPTCHA |
| Flow.ResendReplacesCode | alert.tsx:817-825 | resend replaces the code to match, keeps the OTP form, and keeps the typed code |
| Flow.EditOtpStep | alert.tsx:798 | typing into the OTP field stores the filtered text |
| Flow.MatchingCodeAdvances | alert.tsx:444-447 | submitting a code equal to the generated one reaches the CAPTCHA |
| Flow.TypingShownCodeAdvances | alert.tsx:798 | typing the generated code and submitting it always reaches the CAPTCHA |
| Flow.EnterResetOnlyAfterCaptcha | alert.tsx:454-460 | the reset form is entered only from a CAPTCHA verify whose found count reaches half the targets |
| Flow.FailedCaptchaResets | alert.tsx:265-268 | a failed verify keeps the CAPTCHA on screen with both sets cleared |
| Flow.SignInOutcome | alert.tsx:368-385 | sign-in logs in iff a record matches both fields, under that record's name; the table is never changed; a failure changes nothing |
| Flow.SignUpOutcome | alert.tsx:388-410 | a taken email changes nothing; a fresh one appends exactly the new record and logs in under the given name |
| Flow.ShortPasswordRefused | alert.tsx:466-469 | a new password shorter than 8 UTF-16 code units leaves the whole page unchanged |
| Flow.ResetOutcome | alert.tsx:463-483 | in a reachable state an accepted reset returns to sign-in, changes only the recovered account's password, and from then on the new password signs in and the old one does not |
| Flow.LogoutClearsSession | alert.tsx:486-493 | logout ends the session and clears the name, email and password, and leaves the table alone |
| Flow.LoggedInOnlyLogout | alert.tsx:513-555 | while logged in, every action but Logout changes nothing |
| Flow.AuthFormSteps | alert.tsx:496-501 | the auth form's edits set their field; in sign-up mode the switch goes to sign-in and clears the three fields |
| Flow.LogoutStep | alert.tsx:486-493 | logout clears exactly the session and the auth fields |
| Flow.RunCons | alert.tsx:368-501 | running one action then the rest is running the whole sequence |
| Flow.RunAppend | alert.tsx:368-501 | running two sequences one after the other is running their concatenation |
| Flow.SignUpRun | alert.tsx:388-410 | filling in the sign-up form with a fresh email and submitting logs in and appends the record |
| Flow.SignInRun | alert.tsx:368-385 | logging out, switching to sign-in, typing stored credentials and submitting logs in under the stored name |
| Flow.SignUpLogoutSignIn | alert.tsx:388-410 | end to end: sign up with a fresh email, log out, sign in with the same credentials, and the page greets the new account by name |

## Left out

- `useMousePosition`, `PikachuCharacter`, the background particles and all JSX/CSS rendering: these are DOM events, floating-point animation and presentation only.
- Toast notifications: each outcome is a model state (a changed or unchanged state) instead of a message.
- The 1.5-second `setTimeout` delays and `isLoading`: each handler is one atomic step, so interleaving other clicks during the delay is not modelled.
- `generateStrongPassword`: its result is an arbitrary string argument of the Verify and regenerate events.
- `Math.random`: the OTP number, the six distinct pool indices the shuffle puts first, the grid fill and the placement cells are arguments, constrained only to the ranges `Math.random` can produce.
- The show-password and password-focus toggles: they affect rendering only.
- The browser's form validation (`required`, `type="email"`, `maxLength`): only the handlers' own checks are modelled. The handlers are reachable with an empty field in the model.
- `Blog.tsx`: typed, empty configuration records with no logic.
- Strings are sequences of Unicode scalar values, not of UTF-16 code units. The reset guard is the only length taken of user-entered text, and there `Flow.Utf16Length` counts code units as JavaScript does; every other string the page measures or splits (`chars.length` at alert.tsx:66, `split('')` at alert.tsx:71 and 250) is the ASCII alphabet or an ASCII pool item, so code units and characters coincide. `\d` is ASCII-only in JavaScript, so the OTP filter keeps exactly '0'-'9' and its `slice(0, 6)` works on ASCII text. A JavaScript string can hold a lone surrogate, which has no Dafny counterpart; such strings are not modelled.
- `targetItems.length * 0.5` is a floating-point product. It is exact for the integer lengths involved, so it is modelled as `2·|found| ≥ |targets|`.
- The module-level `userDatabase` outlives component remounts and is shared by every mounted page; here it is one field of the page state, which is equivalent while a single page stays loaded.
