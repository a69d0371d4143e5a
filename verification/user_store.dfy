/** The in-memory mock user table of the demo authentication page: an ordered
    sequence of plaintext records, searched front to back like `Array.find`,
    grown by sign-up and patched in place by password reset. */
module UserStore {

  datatype Option<+T> = None | Some(value: T)

  datatype UserData = UserData(email: string, password: string, name: string)

  /** The store the page starts with: one demo account. */
  function InitialStore(): (db: seq<UserData>)
    ensures |db| == 1
    ensures EmailsUnique(db)
    ensures SignInMatch(db, "user@example.com", "User@123") == Some(UserData("user@example.com", "User@123", "Demo User"))
  {
    [UserData("user@example.com", "User@123", "Demo User")]
  }

  /** No two records share an email address. */
  ghost predicate EmailsUnique(db: seq<UserData>)
  {
    forall i, j :: 0 <= i < j < |db| ==> db[i].email != db[j].email
  }

  predicate Registered(db: seq<UserData>, email: string)
  {
    exists i :: 0 <= i < |db| && db[i].email == email
  }

  /** `userDatabase.find(u => u.email === email && u.password === password)`. */
  function SignInMatch(db: seq<UserData>, email: string, password: string): (r: Option<UserData>)
    ensures r.Some? <==> exists i :: 0 <= i < |db| && db[i].email == email && db[i].password == password
    ensures r.Some? ==> exists i :: 0 <= i < |db| && db[i] == r.value && r.value.email == email && r.value.password == password
  {
    if |db| == 0 then None
    else if db[0].email == email && db[0].password == password then Some(db[0])
    else
      var rest := SignInMatch(db[1..], email, password);
      assert forall i :: 1 <= i < |db| ==> db[i] == db[1..][i - 1];
      rest
  }

  /** `userDatabase.findIndex(u => u.email === email)`: the first index holding
      `email`, or -1 when no record does. */
  function IndexOfEmail(db: seq<UserData>, email: string): (k: int)
    ensures -1 <= k < |db|
    ensures k == -1 <==> !Registered(db, email)
    ensures k >= 0 ==> db[k].email == email && forall i :: 0 <= i < k ==> db[i].email != email
  {
    if |db| == 0 then -1
    else if db[0].email == email then 0
    else
      var k := IndexOfEmail(db[1..], email);
      assert forall i :: 1 <= i < |db| ==> db[i] == db[1..][i - 1];
      if k == -1 then -1 else k + 1
  }

  /** `userDatabase.find(u => u.email === email)`, the existence test of
      sign-up and forgot-password. */
  function FindByEmail(db: seq<UserData>, email: string): (r: Option<UserData>)
    ensures r.Some? <==> Registered(db, email)
    ensures r.Some? ==> r.value.email == email && r.value in db
  {
    var k := IndexOfEmail(db, email);
    if k == -1 then None else Some(db[k])
  }

  datatype SignUpError = AlreadyExists

  datatype SignUpResult = Created(db: seq<UserData>) | Refused(error: SignUpError)

  /** The store part of `handleSignUp`: refuse an email that is already
      present, otherwise append the new record at the end. */
  function SignUp(db: seq<UserData>, email: string, password: string, name: string): (r: SignUpResult)
    ensures r.Refused? <==> Registered(db, email)
    ensures r.Created? ==> |r.db| == |db| + 1 && r.db[..|db|] == db && r.db[|db|] == UserData(email, password, name)
  {
    if FindByEmail(db, email).Some? then Refused(AlreadyExists)
    else Created(db + [UserData(email, password, name)])
  }

  /** The store part of `handlePasswordReset`: overwrite the password of the
      first record holding `email`; no record, no change. */
  function ResetPassword(db: seq<UserData>, email: string, newPassword: string): (r: seq<UserData>)
    ensures |r| == |db|
    ensures !Registered(db, email) ==> r == db
    ensures Registered(db, email) ==>
      var k := IndexOfEmail(db, email);
      && r[k] == UserData(email, newPassword, db[k].name)
      && forall i :: 0 <= i < |db| && i != k ==> r[i] == db[i]
  {
    var k := IndexOfEmail(db, email);
    if k == -1 then db else db[k := db[k].(password := newPassword)]
  }

  /** Sign-up keeps emails unique, and a refused sign-up changes nothing. */
  lemma SignUpPreservesUniqueness(db: seq<UserData>, email: string, password: string, name: string)
    requires EmailsUnique(db)
    ensures SignUp(db, email, password, name).Created? ==> EmailsUnique(SignUp(db, email, password, name).db)
  {
    var r := SignUp(db, email, password, name);
    if r.Created? {
      forall i, j | 0 <= i < j < |r.db|
        ensures r.db[i].email != r.db[j].email
      {
        if j < |db| {
          assert r.db[i] == db[i] && r.db[j] == db[j];
        } else {
          assert r.db[i] == db[i];
        }
      }
    }
  }

  /** Reset never touches an email, so uniqueness survives it. */
  lemma ResetPreservesUniqueness(db: seq<UserData>, email: string, newPassword: string)
    requires EmailsUnique(db)
    ensures EmailsUnique(ResetPassword(db, email, newPassword))
  {
    var r := ResetPassword(db, email, newPassword);
    assert forall i :: 0 <= i < |db| ==> r[i].email == db[i].email;
  }

  /** After a sign-up with a fresh email, signing in with the same
      credentials finds exactly the new record. */
  lemma SignInAfterSignUp(db: seq<UserData>, email: string, password: string, name: string)
    requires !Registered(db, email)
    ensures SignUp(db, email, password, name).Created?
    ensures SignInMatch(SignUp(db, email, password, name).db, email, password) == Some(UserData(email, password, name))
  {
    var db' := SignUp(db, email, password, name).db;
    var r := SignInMatch(db', email, password);
    assert db'[|db|].email == email && db'[|db|].password == password;
    assert forall i :: 0 <= i < |db| ==> db'[i] == db[i];
  }

  /** In a store with unique emails, a reset for a registered email makes the
      new password the only one that signs that account in. */
  lemma SignInAfterReset(db: seq<UserData>, email: string, oldPassword: string, newPassword: string)
    requires EmailsUnique(db)
    requires Registered(db, email)
    requires oldPassword != newPassword
    ensures SignInMatch(ResetPassword(db, email, newPassword), email, newPassword).Some?
    ensures SignInMatch(ResetPassword(db, email, newPassword), email, oldPassword) == None
  {
    var k := IndexOfEmail(db, email);
    var r := ResetPassword(db, email, newPassword);
    assert r[k].email == email && r[k].password == newPassword;
  }

  /** Like `Array.find`, sign-in returns the FIRST record whose email and
      password both match. */
  lemma {:induction false} SignInFindsFirstMatch(db: seq<UserData>, email: string, password: string, k: nat)
    requires k < |db| && db[k].email == email && db[k].password == password
    requires forall i :: 0 <= i < k ==> !(db[i].email == email && db[i].password == password)
    ensures SignInMatch(db, email, password) == Some(db[k])
  {
    if k > 0 {
      SignInFindsFirstMatch(db[1..], email, password, k - 1);
    }
  }
}
