/**
 * The credential service of the user authentication service: registration,
 * password login, session creation and lookup, logout, and password reset
 * through a one-time token, all on top of the user table.
 *
 * bcrypt is a `Hasher`: a salted hash function and the matching check. The
 * random salt and the uuid4 values are parameters of the operations.
 */
module CredentialService {
  import opened Wrappers
  import opened UserTable

  /** A password hasher: `hash(password, salt)` and `check(password, hashed)`. */
  datatype Hasher = Hasher(hash: (string, string) -> string, check: (string, string) -> bool)

  /** The one property of bcrypt relied on: a password checks against its own hash, whatever the salt. */
  ghost predicate Sound(h: Hasher) {
    forall password, salt :: h.check(password, h.hash(password, salt))
  }

  /** What the service raises to its callers. */
  datatype ServiceError = ValueError(message: string)

  function EmailFilter(email: string): seq<(string, Value)> {
    [("email", StrV(email))]
  }

  /** No two rows share an email, which registration keeps true. */
  predicate UniqueEmails(users: seq<User>) {
    forall i, j :: 0 <= i < j < |users| ==> users[i].email != users[j].email
  }

  /** The email filter selects exactly the rows holding that email. */
  lemma EmailFilterSelects(users: seq<User>, email: string)
    ensures forall j :: 0 <= j < |users| ==> (Matches(users[j], EmailFilter(email)) <==> users[j].email == email)
  {
    forall j | 0 <= j < |users|
      ensures Matches(users[j], EmailFilter(email)) <==> users[j].email == email
    {
      SingleFilter(users[j], "email", StrV(email));
    }
  }

  /**
   * The row registered under an email, if any. With unique emails it is the
   * only row holding that email.
   */
  function UserByEmail(users: seq<User>, email: string): (r: Option<nat>)
    ensures r.Some? ==> r.value < |users| && users[r.value].email == email
    ensures r.None? <==> forall j :: 0 <= j < |users| ==> users[j].email != email
    ensures UniqueEmails(users) && r.Some? ==>
              forall j :: 0 <= j < |users| && users[j].email == email ==> j == r.value
  {
    EmailFilterSelects(users, email);
    FirstMatch(users, EmailFilter(email))
  }

  /**
   * `valid_login`: the password checks against the stored hash of the row
   * registered under the email; an unknown email never logs in.
   */
  function ValidLogin(users: seq<User>, h: Hasher, email: string, password: string): (ok: bool)
    ensures ok ==> exists j :: 0 <= j < |users| && users[j].email == email && h.check(password, users[j].hashedPassword)
    ensures UniqueEmails(users) ==>
              (ok <==> exists j :: 0 <= j < |users| && users[j].email == email && h.check(password, users[j].hashedPassword))
  {
    match FindUserBy(users, EmailFilter(email))
    case Failure(_) => false
    case Success(user) =>
      var k := UserByEmail(users, email);
      assert user == users[k.value];
      h.check(password, user.hashedPassword)
  }

  /**
   * `get_user_from_session_id`: None for a missing session id, otherwise the
   * first row holding that session id, or None when no row holds it.
   */
  function UserFromSessionId(users: seq<User>, sessionId: Option<string>): (r: Option<User>)
    ensures sessionId.None? ==> r.None?
    ensures sessionId.Some? && r.None? ==> forall j :: 0 <= j < |users| ==> users[j].sessionId != sessionId
    ensures r.Some? ==> sessionId.Some? && r.value in users && r.value.sessionId == sessionId
    ensures r.Some? ==> exists k :: 0 <= k < |users| && users[k] == r.value
                         && forall j :: 0 <= j < k ==> users[j].sessionId != sessionId
  {
    if sessionId.None? then None
    else
      var filters := [("session_id", StrV(sessionId.value))];
      forall j | 0 <= j < |users|
        ensures Matches(users[j], filters) <==> users[j].sessionId == sessionId
      {
        SingleFilter(users[j], "session_id", StrV(sessionId.value));
      }
      match FindUserBy(users, filters)
      case Failure(_) => None
      case Success(user) => Some(user)
  }

  /** The row whose reset token equals `token`, as the reset filter finds it: None selects rows without a token. */
  function UserByResetToken(users: seq<User>, token: Option<string>): (r: Option<nat>)
    ensures r.Some? ==> r.value < |users| && users[r.value].resetToken == token
    ensures r.Some? ==> forall j :: 0 <= j < r.value ==> users[j].resetToken != token
    ensures r.None? <==> forall j :: 0 <= j < |users| ==> users[j].resetToken != token
  {
    var filters := [("reset_token", OptionValue(token))];
    forall j | 0 <= j < |users|
      ensures Matches(users[j], filters) <==> users[j].resetToken == token
    {
      SingleFilter(users[j], "reset_token", OptionValue(token));
    }
    FirstMatch(users, filters)
  }

  class Auth {
    const db: DB
    const hasher: Hasher

    ghost predicate Valid()
      reads this, db
    {
      db.Valid() && UniqueEmails(db.users)
    }

    /** A new service owns a new, empty database. */
    constructor (hasher: Hasher)
      ensures Valid() && fresh(db) && db.users == [] && this.hasher == hasher
    {
      db := new DB();
      this.hasher := hasher;
    }

    /**
     * `register_user`: ValueError when the email is taken, otherwise one new
     * row holding the email and the salted hash of the password.
     */
    method RegisterUser(email: string, password: string, salt: string) returns (r: Result<User, ServiceError>)
      requires Valid()
      modifies db
      ensures Valid()
      ensures UserByEmail(old(db.users), email).Some? ==>
                r == Failure(ServiceError.ValueError("User " + email + " already exists")) && db.users == old(db.users)
      ensures UserByEmail(old(db.users), email).None? ==>
                r == Success(User(NextId(old(db.users)), email, hasher.hash(password, salt), None, None))
                && db.users == old(db.users) + [r.value]
    {
      EmailFilterSelects(db.users, email);
      var found := FindUserBy(db.users, EmailFilter(email));
      if found.Success? {
        return Failure(ServiceError.ValueError("User " + email + " already exists"));
      }
      var user := db.AddUser(email, hasher.hash(password, salt));
      return Success(user);
    }

    /**
     * `create_session`: None for an unknown email; otherwise the fresh id is
     * stored as the session id of the row registered under the email and returned.
     */
    method CreateSession(email: string, freshId: string) returns (sessionId: Option<string>)
      requires Valid()
      modifies db
      ensures Valid()
      ensures UserByEmail(old(db.users), email).None? ==> sessionId.None? && db.users == old(db.users)
      ensures UserByEmail(old(db.users), email).Some? ==>
                var k := UserByEmail(old(db.users), email).value;
                sessionId == Some(freshId) && db.users == old(db.users)[k := old(db.users)[k].(sessionId := Some(freshId))]
    {
      var found := FindUserBy(db.users, EmailFilter(email));
      if found.Failure? {
        return None;
      }
      var k := UserByEmail(db.users, email).value;
      FindById(db.users, k);
      UpdateOneColumn(db.users[k], "session_id", StrV(freshId));
      ghost var before := db.users;
      var error := db.UpdateUser(found.value.id, [("session_id", StrV(freshId))]);
      EmailsUnchanged(before, k, db.users[k]);
      return Some(freshId);
    }

    /**
     * `destroy_session`: the session id of the row with `userId` is cleared;
     * NoResultFound propagates when no row has that id.
     */
    method DestroySession(userId: int) returns (error: Option<DbError>)
      requires Valid()
      modifies db
      ensures Valid()
      ensures (forall j :: 0 <= j < |old(db.users)| ==> old(db.users)[j].id != userId) ==>
                error == Some(NoResultFound) && db.users == old(db.users)
      ensures forall k :: 0 <= k < |old(db.users)| && old(db.users)[k].id == userId ==>
                error.None? && db.users == old(db.users)[k := old(db.users)[k].(sessionId := None)]
    {
      var filters := [("id", IntV(userId))];
      forall j | 0 <= j < |db.users|
        ensures Matches(db.users[j], filters) <==> db.users[j].id == userId
      {
        SingleFilter(db.users[j], "id", IntV(userId));
      }
      ghost var before := db.users;
      error := db.UpdateUser(userId, [("session_id", NoneV)]);
      forall k | 0 <= k < |before| && before[k].id == userId
        ensures error.None? && db.users == before[k := before[k].(sessionId := None)]
      {
        FindById(before, k);
        UpdateOneColumn(before[k], "session_id", NoneV);
      }
      if FindUserBy(before, filters).Success? {
        var k := FirstMatch(before, filters).value;
        EmailsUnchanged(before, k, db.users[k]);
      }
    }

    /**
     * `get_reset_password_token`: ValueError for an unknown email; otherwise the
     * fresh token is stored on the row registered under the email and returned.
     */
    method GetResetPasswordToken(email: string, freshToken: string) returns (r: Result<string, ServiceError>)
      requires Valid()
      modifies db
      ensures Valid()
      ensures UserByEmail(old(db.users), email).None? ==>
                r == Failure(ServiceError.ValueError("User not found")) && db.users == old(db.users)
      ensures UserByEmail(old(db.users), email).Some? ==>
                var k := UserByEmail(old(db.users), email).value;
                r == Success(freshToken) && db.users == old(db.users)[k := old(db.users)[k].(resetToken := Some(freshToken))]
    {
      var found := FindUserBy(db.users, EmailFilter(email));
      if found.Failure? {
        return Failure(ServiceError.ValueError("User not found"));
      }
      var k := UserByEmail(db.users, email).value;
      FindById(db.users, k);
      UpdateOneColumn(db.users[k], "reset_token", StrV(freshToken));
      ghost var before := db.users;
      var error := db.UpdateUser(found.value.id, [("reset_token", StrV(freshToken))]);
      EmailsUnchanged(before, k, db.users[k]);
      return Success(freshToken);
    }

    /**
     * `update_password` as written: the row is looked up by `reset_token = token`,
     * so a missing token (None) selects the first row that has no pending reset.
     * That row gets the salted hash of the new password and its token cleared;
     * ValueError when no row is selected.
     */
    method UpdatePassword(resetToken: Option<string>, password: string, salt: string) returns (r: Result<(), ServiceError>)
      requires Valid()
      modifies db
      ensures Valid()
      ensures UserByResetToken(old(db.users), resetToken).None? ==>
                r == Failure(ServiceError.ValueError("Invalid reset token")) && db.users == old(db.users)
      ensures UserByResetToken(old(db.users), resetToken).Some? ==>
                var k := UserByResetToken(old(db.users), resetToken).value;
                r == Success(()) && db.users == old(db.users)[k := PasswordReset(old(db.users)[k], hasher.hash(password, salt))]
    {
      r := ResetRow(resetToken, password, salt);
    }

    /**
     * `update_password` guarded against a missing token: ValueError unless a
     * token is given and some row holds it; the reset then behaves as above.
     */
    method UpdatePasswordChecked(resetToken: Option<string>, password: string, salt: string) returns (r: Result<(), ServiceError>)
      requires Valid()
      modifies db
      ensures Valid()
      ensures resetToken.None? || UserByResetToken(old(db.users), resetToken).None? ==>
                r == Failure(ServiceError.ValueError("Invalid reset token")) && db.users == old(db.users)
      ensures resetToken.Some? && UserByResetToken(old(db.users), resetToken).Some? ==>
                var k := UserByResetToken(old(db.users), resetToken).value;
                r == Success(()) && old(db.users)[k].resetToken == resetToken
                && db.users == old(db.users)[k := PasswordReset(old(db.users)[k], hasher.hash(password, salt))]
    {
      if resetToken.None? {
        return Failure(ServiceError.ValueError("Invalid reset token"));
      }
      r := ResetRow(resetToken, password, salt);
    }

    /** The lookup by reset token and the update of the selected row, shared by both versions. */
    method ResetRow(resetToken: Option<string>, password: string, salt: string) returns (r: Result<(), ServiceError>)
      requires Valid()
      modifies db
      ensures Valid()
      ensures UserByResetToken(old(db.users), resetToken).None? ==>
                r == Failure(ServiceError.ValueError("Invalid reset token")) && db.users == old(db.users)
      ensures UserByResetToken(old(db.users), resetToken).Some? ==>
                var k := UserByResetToken(old(db.users), resetToken).value;
                r == Success(()) && db.users == old(db.users)[k := PasswordReset(old(db.users)[k], hasher.hash(password, salt))]
    {
      var found := FindUserBy(db.users, [("reset_token", OptionValue(resetToken))]);
      if found.Failure? {
        return Failure(ServiceError.ValueError("Invalid reset token"));
      }
      var k := UserByResetToken(db.users, resetToken).value;
      var hashed := hasher.hash(password, salt);
      FindById(db.users, k);
      UpdateTwoColumns(db.users[k], "hashed_password", StrV(hashed), "reset_token", NoneV);
      ghost var before := db.users;
      var error := db.UpdateUser(found.value.id, [("hashed_password", StrV(hashed)), ("reset_token", NoneV)]);
      assert db.users == before[k := PasswordReset(before[k], hashed)];
      EmailsUnchanged(before, k, PasswordReset(before[k], hashed));
      return Success(());
    }
  }

  /** Replacing one row by a row with the same email keeps emails unique. */
  lemma EmailsUnchanged(users: seq<User>, k: nat, u: User)
    requires UniqueEmails(users) && k < |users| && u.email == users[k].email
    ensures UniqueEmails(users[k := u])
  {
  }

  /** The row after a password reset: the new hash stored and the token cleared. */
  function PasswordReset(u: User, hashed: string): (r: User)
    ensures r.id == u.id && r.email == u.email && r.sessionId == u.sessionId
    ensures r.hashedPassword == hashed && r.resetToken.None?
  {
    u.(hashedPassword := hashed, resetToken := None)
  }

  /** Registration keeps emails unique: the new row's email was held by no row. */
  lemma RegistrationKeepsEmailsUnique(users: seq<User>, user: User)
    requires UniqueEmails(users) && UserByEmail(users, user.email).None?
    ensures UniqueEmails(users + [user])
  {
    var after := users + [user];
    forall i, j | 0 <= i < j < |after|
      ensures after[i].email != after[j].email
    {
      if j == |users| {
        assert after[i] == users[i];
      } else {
        assert after[i] == users[i] && after[j] == users[j];
      }
    }
  }

  /** A user who has just registered logs in with the password given at registration. */
  lemma RegisteredUserCanLogIn(users: seq<User>, h: Hasher, email: string, password: string, salt: string)
    requires Sound(h) && UniqueEmails(users) && UserByEmail(users, email).None?
    ensures ValidLogin(users + [User(NextId(users), email, h.hash(password, salt), None, None)], h, email, password)
  {
    var user := User(NextId(users), email, h.hash(password, salt), None, None);
    var after := users + [user];
    RegistrationKeepsEmailsUnique(users, user);
    assert after[|users|] == user;
    assert h.check(password, user.hashedPassword);
  }

  /** After a session id is stored on a row, and no other row holds it, the id resolves to that row. */
  lemma NewSessionResolvesToItsUser(users: seq<User>, k: nat, freshId: string)
    requires k < |users|
    requires forall j :: 0 <= j < |users| && j != k ==> users[j].sessionId != Some(freshId)
    ensures UserFromSessionId(users[k := users[k].(sessionId := Some(freshId))], Some(freshId))
            == Some(users[k].(sessionId := Some(freshId)))
  {
    var after := users[k := users[k].(sessionId := Some(freshId))];
    var r := UserFromSessionId(after, Some(freshId));
    assert after[k].sessionId == Some(freshId);
    var m :| 0 <= m < |after| && after[m] == r.value
             && forall j :: 0 <= j < m ==> after[j].sessionId != Some(freshId);
    assert m == k;
  }

  /** After logout the row's session id no longer resolves, when no other row holds it. */
  lemma LogoutEndsSession(users: seq<User>, k: nat, sessionId: string)
    requires k < |users|
    requires forall j :: 0 <= j < |users| && j != k ==> users[j].sessionId != Some(sessionId)
    ensures UserFromSessionId(users[k := users[k].(sessionId := None)], Some(sessionId)).None?
  {
    var after := users[k := users[k].(sessionId := None)];
    forall j | 0 <= j < |after|
      ensures after[j].sessionId != Some(sessionId)
    {
      if j != k {
        assert after[j] == users[j];
      }
    }
  }

  /** A reset token is good for one reset: afterwards no row holds it, so a second use is refused. */
  lemma ResetTokenIsOneTime(users: seq<User>, k: nat, token: string, hashed: string)
    requires k < |users|
    requires forall j :: 0 <= j < |users| && j != k ==> users[j].resetToken != Some(token)
    ensures UserByResetToken(users[k := PasswordReset(users[k], hashed)], Some(token)).None?
  {
    var after := users[k := PasswordReset(users[k], hashed)];
    forall j | 0 <= j < |after|
      ensures after[j].resetToken != Some(token)
    {
      if j != k {
        assert after[j] == users[j];
      }
    }
  }

  /** After a reset the row's owner logs in with the new password. */
  lemma ResetPasswordLogsIn(users: seq<User>, h: Hasher, k: nat, password: string, salt: string)
    requires Sound(h) && UniqueEmails(users) && k < |users|
    ensures ValidLogin(users[k := PasswordReset(users[k], h.hash(password, salt))], h, users[k].email, password)
  {
    var after := users[k := PasswordReset(users[k], h.hash(password, salt))];
    EmailsUnchanged(users, k, PasswordReset(users[k], h.hash(password, salt)));
    assert after[k].email == users[k].email;
    assert h.check(password, after[k].hashedPassword);
  }

  /**
   * A missing reset token selects the first row with no pending reset, so a
   * reset without any token sets the password of an account whose owner never
   * asked for one, and the new password then logs into that account.
   */
  lemma MissingTokenTakesOverAccount(users: seq<User>, h: Hasher, j: nat, password: string, salt: string)
    requires Sound(h) && UniqueEmails(users)
    requires j < |users| && users[j].resetToken.None?
    ensures UserByResetToken(users, None).Some?
    ensures var k := UserByResetToken(users, None).value;
            users[k].resetToken.None?
            && ValidLogin(users[k := PasswordReset(users[k], h.hash(password, salt))], h, users[k].email, password)
  {
    var k := UserByResetToken(users, None).value;
    ResetPasswordLogsIn(users, h, k, password, salt);
  }

  const Email := "guillaume@holberton.io"
  const Password := "b4l0u"
  const NewPassword := "t4rt1fl3tt3"

  /** The lookups on a table of a single row. */
  lemma OneRow(u: User, h: Hasher, email: string, password: string, sessionId: Option<string>, token: Option<string>)
    ensures UserByEmail([u], email) == if u.email == email then Some(0) else None
    ensures ValidLogin([u], h, email, password) == (u.email == email && h.check(password, u.hashedPassword))
    ensures UserFromSessionId([u], sessionId) == if sessionId.Some? && u.sessionId == sessionId then Some(u) else None
    ensures UserByResetToken([u], token) == if u.resetToken == token then Some(0) else None
  {
    assert UniqueEmails([u]);
    if UserFromSessionId([u], sessionId).Some? {
      assert [u][0] == u;
    }
  }

  /**
   * The reset part of the journey, on a table holding only the row of `email`:
   * ask for a token, reset the password with it, log in with the new password,
   * and try the token again.
   */
  method ResetJourney(auth: Auth, email: string, password: string, newPassword: string,
                      salt: string, newSalt: string, token: string)
    returns (newPasswordAccepted: bool, replay: Result<(), ServiceError>)
    requires Sound(auth.hasher) && auth.Valid()
    requires auth.db.users == [User(1, email, auth.hasher.hash(password, salt), None, None)]
    modifies auth.db
    ensures newPasswordAccepted
    ensures replay == Failure(ServiceError.ValueError("Invalid reset token"))
  {
    var h := auth.hasher;
    var hashed := h.hash(password, salt);
    OneRow(User(1, email, hashed, None, None), h, email, newPassword, None, Some(token));
    var issued := auth.GetResetPasswordToken(email, token);
    var pending := User(1, email, hashed, None, Some(token));
    assert auth.db.users == [pending];
    OneRow(pending, h, email, newPassword, None, Some(token));
    var reset := auth.UpdatePasswordChecked(Some(token), newPassword, newSalt);
    var renewed := User(1, email, h.hash(newPassword, newSalt), None, None);
    assert auth.db.users == [renewed];
    OneRow(renewed, h, email, newPassword, None, Some(token));
    newPasswordAccepted := ValidLogin(auth.db.users, h, email, newPassword);
    replay := auth.UpdatePasswordChecked(Some(token), password, newSalt);
  }

  /**
   * The session part of the journey, on a table holding only the row of `email`:
   * log in, look up the profile by the session id, log out, and look it up again.
   */
  method SessionJourney(auth: Auth, email: string, hashed: string, sessionId: string)
    returns (profile: Option<User>, afterLogout: Option<User>)
    requires auth.Valid()
    requires auth.db.users == [User(1, email, hashed, None, None)]
    modifies auth.db
    ensures profile.Some? && profile.value.email == email && profile.value.sessionId == Some(sessionId)
    ensures afterLogout.None?
    ensures auth.Valid() && auth.db.users == [User(1, email, hashed, None, None)]
  {
    var h := auth.hasher;
    OneRow(User(1, email, hashed, None, None), h, email, "", Some(sessionId), None);
    var session := auth.CreateSession(email, sessionId);
    var loggedIn := User(1, email, hashed, Some(sessionId), None);
    assert auth.db.users == [loggedIn];
    OneRow(loggedIn, h, email, "", Some(sessionId), None);
    profile := UserFromSessionId(auth.db.users, session);
    var ended := auth.DestroySession(profile.value.id);
    assert auth.db.users == [User(1, email, hashed, None, None)];
    OneRow(User(1, email, hashed, None, None), h, email, "", Some(sessionId), None);
    afterLogout := UserFromSessionId(auth.db.users, session);
  }

  /**
   * The end-to-end journey of the integration script: register (twice, the
   * second refused), a wrong password refused and the right one accepted, log
   * in, look up the profile by session, log out, ask for a reset token, reset
   * the password, log in with the new one, and try the used token again. The
   * script resets with the token it was given, where `update_password` and
   * `UpdatePasswordChecked` agree.
   */
  method UserJourney(h: Hasher, salt: string, newSalt: string, sessionId: string, token: string)
    returns (secondRegistration: Result<User, ServiceError>, wrongPasswordAccepted: bool, rightPasswordAccepted: bool,
             profile: Option<User>, afterLogout: Option<User>, newPasswordAccepted: bool, replay: Result<(), ServiceError>)
    requires Sound(h)
    requires !h.check(NewPassword, h.hash(Password, salt))
    ensures secondRegistration == Failure(ServiceError.ValueError("User " + Email + " already exists"))
    ensures !wrongPasswordAccepted && rightPasswordAccepted
    ensures profile.Some? && profile.value.email == Email && profile.value.sessionId == Some(sessionId)
    ensures afterLogout.None?
    ensures newPasswordAccepted
    ensures replay == Failure(ServiceError.ValueError("Invalid reset token"))
  {
    var auth := new Auth(h);
    var hashed := h.hash(Password, salt);
    var newcomer := User(1, Email, hashed, None, None);
    var registered := auth.RegisterUser(Email, Password, salt);
    assert auth.db.users == [newcomer];
    OneRow(newcomer, h, Email, NewPassword, None, None);
    OneRow(newcomer, h, Email, Password, None, None);
    secondRegistration := auth.RegisterUser(Email, Password, salt);
    wrongPasswordAccepted := ValidLogin(auth.db.users, h, Email, NewPassword);
    rightPasswordAccepted := ValidLogin(auth.db.users, h, Email, Password);
    profile, afterLogout := SessionJourney(auth, Email, hashed, sessionId);
    newPasswordAccepted, replay := ResetJourney(auth, Email, Password, NewPassword, salt, newSalt, token);
  }
}
