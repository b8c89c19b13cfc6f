/** A client of the two stores: register an account, sign in, resolve the
    session from its cookie, sign out, and replay the old cookie. Everything
    it concludes follows from the contracts of Users and Sessions alone. */
module Scenario {
  import opened Errors
  import Hex
  import opened Users
  import opened Sessions

  /** Sign-up on a fresh installation: InitUsers, then NewUser and Write of
      alice_01. The table then holds the header and her row, nothing else. */
  method SignUp(hash: Sha256) returns (users: UsersFile)
    ensures fresh(users) && users.Valid() && users.present
    ensures users.rows == [Header, Row("alice_01", PasswordHash(hash, "correcthorse1"), "", "")]
  {
    users := new UsersFile();
    var initErr := users.InitUsers();
    var u, newErr := NewUser(hash, "alice_01", "correcthorse1");
    var writeErr := u.Write(users);
  }

  method SignUpSignInSignOut(hash: Sha256, entropy: seq<Hex.byte>)
    returns (resolved: string, wrongPasswordDenied: bool, replayRejected: bool, secondSignOutFails: bool)
    requires |entropy| >= IdByteLen
    requires hash("wrongpass1") != hash("correcthorse1")
    ensures resolved == "alice_01"
    ensures wrongPasswordDenied && replayRejected && secondSignOutFails
  {
    var users := SignUp(hash);
    var dir := new SessionDir();

    // Sign-in: fetch the account and check the password.
    var account, fetchErr := users.FetchUser("alice_01");
    LookupUnique(users.rows, 1);
    assert account.CheckPassword(hash, "correcthorse1");
    PasswordHashMatchesDigest(hash, "wrongpass1", "correcthorse1");
    wrongPasswordDenied := !account.CheckPassword(hash, "wrongpass1");

    var w := new ResponseWriter();
    var s, sessionErr := InitSession(account, entropy, dir, w);
    var cookie := w.cookies[0];
    CookieRoundTrip(s);

    // A later request presents the cookie.
    assert SurvivesLineScan("alice_01");
    ResolveAfterWrite(map[], users.rows, s.id, "alice_01");
    var back, backErr := SessionFromCookie(cookie, dir, users);
    resolved := back.user.username;

    // Sign-out, then replay of the old cookie, then a second sign-out.
    var w2 := new ResponseWriter();
    var outErr := back.Terminate(dir, w2);
    var replay, replayErr := SessionFromCookie(cookie, dir, users);
    replayRejected := replay == null && replayErr == Failure(FileNotFound(SessionPath(cookie.value)));
    var outErr2 := back.Terminate(dir, w2);
    secondSignOutFails := outErr2 == Failure(FileNotFound(SessionPath(s.id)));
  }
}
