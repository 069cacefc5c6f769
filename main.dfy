/**
 * The account operations: registration, login and logout. Each one loads
 * the document, checks its inputs in a fixed order, changes the users'
 * records and writes the whole document back.
 *
 * Each operation is first defined as a function from the document before
 * to an `Outcome` (what the caller gets, and the document written back if
 * one is), and the lemmas state what the operation promises about it; the
 * methods at the end run the same steps against the `Store` and are proved
 * to produce that outcome.
 *
 * The password hash and the email-format check are foreign code and come
 * in as the parameters `hashPassword` and `isEmail`; the value
 * `Math.random()` would return comes in as `random`.
 */
module Auth {
  import opened Wrappers
  import opened DataStore
  import opened HelperFunctions
  import opened Token

  /** The errors the operations throw. */
  datatype AuthError =
    | EmailInUse          // 'Email is already in use'
    | InvalidEmail        // 'Email is not a valid email'
    | InvalidFirstName    // 'First name is invalid'
    | InvalidLastName     // 'Last name is invalid'
    | WeakPassword        // 'Password is not strong enough'
    | InvalidCredentials  // 'Password or email address does not exist or is incorrect'
    | MalformedToken(reason: DecodeError)  // decodeToken throws
    | UserNotFound        // the token names no user: the source dereferences `undefined`

  /** What an operation gives its caller, and the document it writes back, if it writes one. */
  datatype Outcome<T> = Outcome(result: Result<T, AuthError>, saved: Option<Data>)

  /** A failure thrown before anything is written. */
  function Fail<T>(e: AuthError): Outcome<T> {
    Outcome(Err(e), None)
  }

  /** The document once the operation is over. */
  function After<T>(before: Data, o: Outcome<T>): Data {
    if o.saved.Some? then o.saved.value else before
  }

  // ---------------------------------------------------------------- register

  /** The record `userRegister` builds, holding its first session. */
  function NewUser(userId: int, nameFirst: string, nameLast: string, email: string,
                   passwordHash: string, sessionId: int): User {
    User(userId, nameFirst + " " + nameLast, email, passwordHash, 1, 0, [], 1, [sessionId])
  }

  /** The inputs `userRegister` accepts: all five checks pass. */
  predicate RegistrationAccepted(data: Data, isEmail: string -> bool, email: string, password: string,
                                 nameFirst: string, nameLast: string) {
    && FindUserWithEmail(data, email).None?
    && isEmail(email)
    && CheckNameIsValidInput(nameFirst)
    && CheckNameIsValidInput(nameLast)
    && CheckValidPassword(password)
  }

  /** `userRegister`: the first failing check decides the error. */
  function Register(data: Data, isEmail: string -> bool, hashPassword: string -> string, random: real,
                    email: string, password: string, nameFirst: string, nameLast: string): (o: Outcome<string>)
    requires 0.0 <= random < 1.0
    ensures o.result.Err? <==> o.saved.None?
    ensures o.saved.Some? ==> |o.saved.value.users| == |data.users| + 1
  {
    if FindUserWithEmail(data, email).Some? then Fail(EmailInUse)
    else if !isEmail(email) then Fail(InvalidEmail)
    else if !CheckNameIsValidInput(nameFirst) then Fail(InvalidFirstName)
    else if !CheckNameIsValidInput(nameLast) then Fail(InvalidLastName)
    else if !CheckValidPassword(password) then Fail(WeakPassword)
    else
      var userId := |data.users|;
      var sessionId := GenerateSessionId(random);
      var user := NewUser(userId, nameFirst, nameLast, email, hashPassword(password), sessionId);
      Outcome(Ok(GenerateToken(userId, sessionId)), Some(Data(data.users + [user])))
  }

  /** The outcome of a registration that passes its checks. */
  lemma RegisterAccepted(data: Data, isEmail: string -> bool, hashPassword: string -> string, random: real,
                         email: string, password: string, nameFirst: string, nameLast: string)
    requires 0.0 <= random < 1.0
    requires RegistrationAccepted(data, isEmail, email, password, nameFirst, nameLast)
    ensures var sessionId := GenerateSessionId(random);
            Register(data, isEmail, hashPassword, random, email, password, nameFirst, nameLast)
            == Outcome(Ok(GenerateToken(|data.users|, sessionId)),
                       Some(Data(data.users + [NewUser(|data.users|, nameFirst, nameLast, email, hashPassword(password), sessionId)])))
  {
  }

  /**
   * A registration succeeds exactly when all checks pass and a rejected one
   * writes nothing. The checks run in a fixed order and the first that
   * fails decides the error: email in use, then email format, first name,
   * last name and password strength.
   */
  lemma RegisterChecks(data: Data, isEmail: string -> bool, hashPassword: string -> string, random: real,
                       email: string, password: string, nameFirst: string, nameLast: string)
    requires 0.0 <= random < 1.0
    ensures var o := Register(data, isEmail, hashPassword, random, email, password, nameFirst, nameLast);
            && (o.result.Ok? <==> RegistrationAccepted(data, isEmail, email, password, nameFirst, nameLast))
            && (o.result.Err? ==> o.saved.None?)
            && ((exists i :: 0 <= i < |data.users| && data.users[i].email == email) ==> o.result == Err(EmailInUse))
            && (FindUserWithEmail(data, email).None? && !isEmail(email) ==> o.result == Err(InvalidEmail))
            && ((FindUserWithEmail(data, email).None? && isEmail(email) && !CheckNameIsValidInput(nameFirst))
                ==> o.result == Err(InvalidFirstName))
            && ((FindUserWithEmail(data, email).None? && isEmail(email) && CheckNameIsValidInput(nameFirst)
                 && !CheckNameIsValidInput(nameLast)) ==> o.result == Err(InvalidLastName))
            && ((FindUserWithEmail(data, email).None? && isEmail(email) && CheckNameIsValidInput(nameFirst)
                 && CheckNameIsValidInput(nameLast) && !CheckValidPassword(password)) ==> o.result == Err(WeakPassword))
  {
  }

  /**
   * A successful registration appends one user and changes no other: its
   * id is its position, it holds the email, the hashed password, the two
   * names joined by a space, one login and exactly one session, and the
   * token returned names that session.
   */
  lemma RegisterAppendsUser(data: Data, isEmail: string -> bool, hashPassword: string -> string, random: real,
                            email: string, password: string, nameFirst: string, nameLast: string)
    requires 0.0 <= random < 1.0
    requires Register(data, isEmail, hashPassword, random, email, password, nameFirst, nameLast).result.Ok?
    ensures var o := Register(data, isEmail, hashPassword, random, email, password, nameFirst, nameLast);
            var users := After(data, o).users;
            && |users| == |data.users| + 1
            && users[..|data.users|] == data.users
            && var u := users[|data.users|];
               && u.userId == |data.users| && u.email == email && u.password == hashPassword(password)
               && u.name == nameFirst + " " + nameLast
               && u.numSuccessfulLogins == 1 && u.numFailedPasswordsSinceLastLogin == 0 && u.totalSessionNum == 1
               && u.oldPasswords == []
               && |u.activeSessionIds| == 1
               && DecodeToken(o.result.value) == Ok(TokenObject(Some(u.activeSessionIds[0]), Some(u.userId)))
  {
    RegisterChecks(data, isEmail, hashPassword, random, email, password, nameFirst, nameLast);
    RegisterAccepted(data, isEmail, hashPassword, random, email, password, nameFirst, nameLast);
    var sessionId := GenerateSessionId(random);
    var users := data.users + [NewUser(|data.users|, nameFirst, nameLast, email, hashPassword(password), sessionId)];
    assert users[..|data.users|] == data.users;
    DecodeGenerateToken(|data.users|, sessionId);
  }

  /** The token a successful registration returns is active in the document written back. */
  lemma RegisterTokenIsActive(data: Data, isEmail: string -> bool, hashPassword: string -> string, random: real,
                              email: string, password: string, nameFirst: string, nameLast: string)
    requires 0.0 <= random < 1.0
    ensures var o := Register(data, isEmail, hashPassword, random, email, password, nameFirst, nameLast);
            o.result.Ok? ==> && DecodeToken(o.result.value).Ok?
                             && IsActiveToken(After(data, o).users, DecodeToken(o.result.value).value)
  {
    var o := Register(data, isEmail, hashPassword, random, email, password, nameFirst, nameLast);
    RegisterChecks(data, isEmail, hashPassword, random, email, password, nameFirst, nameLast);
    if o.result.Ok? {
      RegisterAccepted(data, isEmail, hashPassword, random, email, password, nameFirst, nameLast);
      var sessionId := GenerateSessionId(random);
      var users := After(data, o).users;
      DecodeGenerateToken(|data.users|, sessionId);
      assert HoldsSession(users[|data.users|], TokenObject(Some(sessionId), Some(|data.users|)));
    }
  }

  /** Registration keeps ids equal to positions and emails unique. */
  lemma RegisterPreservesWellFormed(data: Data, isEmail: string -> bool, hashPassword: string -> string, random: real,
                                    email: string, password: string, nameFirst: string, nameLast: string)
    requires 0.0 <= random < 1.0
    requires WellFormed(data)
    ensures WellFormed(After(data, Register(data, isEmail, hashPassword, random, email, password, nameFirst, nameLast)))
  {
    var o := Register(data, isEmail, hashPassword, random, email, password, nameFirst, nameLast);
    RegisterChecks(data, isEmail, hashPassword, random, email, password, nameFirst, nameLast);
    if o.result.Ok? {
      RegisterAccepted(data, isEmail, hashPassword, random, email, password, nameFirst, nameLast);
      var users := After(data, o).users;
      forall i, j | 0 <= i < j < |users| ensures users[i].email != users[j].email {
        if j == |data.users| {
          assert users[i] == data.users[i];
        }
      }
    }
  }

  // ------------------------------------------------------------------- login

  /** A wrong password: one more failed attempt. */
  function FailedAttempt(user: User): User {
    user.(numFailedPasswordsSinceLastLogin := user.numFailedPasswordsSinceLastLogin + 1)
  }

  /** A correct password: one more login, the failures cleared, a new session. */
  function SuccessfulLogin(user: User, sessionId: int): User {
    user.(numSuccessfulLogins := user.numSuccessfulLogins + 1,
          numFailedPasswordsSinceLastLogin := 0,
          totalSessionNum := user.totalSessionNum + 1,
          activeSessionIds := user.activeSessionIds + [sessionId])
  }

  /** `userLogin`: the first user with the email is the one checked and changed. */
  function Login(data: Data, hashPassword: string -> string, random: real, email: string, password: string): (o: Outcome<string>)
    requires 0.0 <= random < 1.0
    ensures o.result.Err? ==> o.result.error == InvalidCredentials
    ensures o.result.Ok? ==> o.saved.Some?
    ensures o.saved.Some? ==> |o.saved.value.users| == |data.users|
  {
    match FirstIndexWithEmail(data.users, email)
    case None => Fail(InvalidCredentials)
    case Some(i) =>
      var user := data.users[i];
      if user.password != hashPassword(password) then
        Outcome(Err(InvalidCredentials), Some(Data(data.users[i := FailedAttempt(user)])))
      else
        var sessionId := GenerateSessionId(random);
        Outcome(Ok(GenerateToken(user.userId, sessionId)), Some(Data(data.users[i := SuccessfulLogin(user, sessionId)])))
  }

  /**
   * In a well-formed document a login succeeds exactly when some user has
   * the email and the password's hash; every failure is the same error, so
   * a caller cannot tell an unknown email from a wrong password, and only
   * an unknown email leaves the document unwritten.
   */
  lemma LoginSucceedsIff(data: Data, hashPassword: string -> string, random: real, email: string, password: string)
    requires 0.0 <= random < 1.0
    requires WellFormed(data)
    ensures var o := Login(data, hashPassword, random, email, password);
            && (o.result.Ok? <==> exists i :: 0 <= i < |data.users| && data.users[i].email == email
                                                && data.users[i].password == hashPassword(password))
            && (o.result.Err? ==> o.result.error == InvalidCredentials)
            && (o.saved.None? <==> forall i :: 0 <= i < |data.users| ==> data.users[i].email != email)
  {
    var o := Login(data, hashPassword, random, email, password);
    var found := FirstIndexWithEmail(data.users, email);
    if found.Some? {
      var k := found.value;
      forall i | 0 <= i < |data.users| && i != k ensures data.users[i].email != email {
        if k < i {
          assert data.users[k].email != data.users[i].email;
        }
      }
    }
  }

  /**
   * A login changes only the user it found, and of that user only the
   * counters and the sessions: the id, name, email, password and old
   * passwords stay. A wrong password adds one failed attempt; a right one
   * clears them, counts the login and the session, and adds the session.
   */
  lemma LoginChangesOneUser(data: Data, hashPassword: string -> string, random: real, email: string, password: string)
    requires 0.0 <= random < 1.0
    requires FirstIndexWithEmail(data.users, email).Some?
    ensures var o := Login(data, hashPassword, random, email, password);
            var i := FirstIndexWithEmail(data.users, email).value;
            var (u, v) := (data.users[i], After(data, o).users[i]);
            && |After(data, o).users| == |data.users|
            && (forall j :: 0 <= j < |data.users| && j != i ==> After(data, o).users[j] == data.users[j])
            && v.userId == u.userId && v.name == u.name && v.email == u.email
            && v.password == u.password && v.oldPasswords == u.oldPasswords
            && (o.result.Err? ==> && v.numFailedPasswordsSinceLastLogin == u.numFailedPasswordsSinceLastLogin + 1
                                  && v.numSuccessfulLogins == u.numSuccessfulLogins
                                  && v.totalSessionNum == u.totalSessionNum
                                  && v.activeSessionIds == u.activeSessionIds)
            && (o.result.Ok? ==> && v.numFailedPasswordsSinceLastLogin == 0
                                 && v.numSuccessfulLogins == u.numSuccessfulLogins + 1
                                 && v.totalSessionNum == u.totalSessionNum + 1
                                 && |v.activeSessionIds| == |u.activeSessionIds| + 1
                                 && v.activeSessionIds[..|u.activeSessionIds|] == u.activeSessionIds)
  {
  }

  /**
   * A login never ends a session, and the token a successful one returns
   * is active afterwards.
   */
  lemma LoginTokenIsActive(data: Data, hashPassword: string -> string, random: real, email: string, password: string)
    requires 0.0 <= random < 1.0
    ensures var o := Login(data, hashPassword, random, email, password);
            && (forall t :: IsActiveToken(data.users, t) ==> IsActiveToken(After(data, o).users, t))
            && (o.result.Ok? ==> && DecodeToken(o.result.value).Ok?
                                 && IsActiveToken(After(data, o).users, DecodeToken(o.result.value).value))
  {
    var o := Login(data, hashPassword, random, email, password);
    var users := After(data, o).users;
    forall t | IsActiveToken(data.users, t) ensures IsActiveToken(users, t) {
      var j :| 0 <= j < |data.users| && HoldsSession(data.users[j], t);
      assert HoldsSession(users[j], t);
    }
    if o.result.Ok? {
      var i := FirstIndexWithEmail(data.users, email).value;
      var sessionId := GenerateSessionId(random);
      DecodeGenerateToken(data.users[i].userId, sessionId);
      assert HoldsSession(users[i], TokenObject(Some(sessionId), Some(data.users[i].userId)));
    }
  }

  /**
   * The token a successful login returns names the user it found and the
   * session it has just appended to that user's active sessions.
   */
  lemma LoginReturnsNewSession(data: Data, hashPassword: string -> string, random: real, email: string, password: string)
    requires 0.0 <= random < 1.0
    requires FirstIndexWithEmail(data.users, email).Some?
    ensures var o := Login(data, hashPassword, random, email, password);
            var i := FirstIndexWithEmail(data.users, email).value;
            var (u, v) := (data.users[i], After(data, o).users[i]);
            o.result.Ok? ==> && |v.activeSessionIds| == |u.activeSessionIds| + 1
                             && DecodeToken(o.result.value)
                                == Ok(TokenObject(Some(v.activeSessionIds[|u.activeSessionIds|]), Some(u.userId)))
  {
    DecodeGenerateToken(data.users[FirstIndexWithEmail(data.users, email).value].userId, GenerateSessionId(random));
  }

  /** A login keeps the document well formed. */
  lemma LoginPreservesWellFormed(data: Data, hashPassword: string -> string, random: real, email: string, password: string)
    requires 0.0 <= random < 1.0
    requires WellFormed(data)
    ensures WellFormed(After(data, Login(data, hashPassword, random, email, password)))
  {
  }

  /** A user who has just registered can log in with the same email and password. */
  lemma RegisteredUserCanLogIn(data: Data, isEmail: string -> bool, hashPassword: string -> string, random: real,
                               email: string, password: string, nameFirst: string, nameLast: string, random2: real)
    requires 0.0 <= random < 1.0 && 0.0 <= random2 < 1.0
    requires Register(data, isEmail, hashPassword, random, email, password, nameFirst, nameLast).result.Ok?
    ensures var registered := After(data, Register(data, isEmail, hashPassword, random, email, password, nameFirst, nameLast));
            Login(registered, hashPassword, random2, email, password).result.Ok?
  {
    RegisterChecks(data, isEmail, hashPassword, random, email, password, nameFirst, nameLast);
    RegisterAccepted(data, isEmail, hashPassword, random, email, password, nameFirst, nameLast);
    var sessionId := GenerateSessionId(random);
    var n := |data.users|;
    var users := data.users + [NewUser(n, nameFirst, nameLast, email, hashPassword(password), sessionId)];
    assert After(data, Register(data, isEmail, hashPassword, random, email, password, nameFirst, nameLast)) == Data(users);
    assert users[n].email == email;
    forall j | 0 <= j < n ensures users[j].email != email {
      assert users[j] == data.users[j];
    }
    FirstIndexWithEmailAt(users, email, n);
    LoginAccepted(Data(users), hashPassword, random2, email, password);
  }

  /** The first index with an email is the one holding it with no earlier holder. */
  lemma FirstIndexWithEmailAt(users: seq<User>, email: string, n: nat)
    requires n < |users| && users[n].email == email
    requires forall j :: 0 <= j < n ==> users[j].email != email
    ensures FirstIndexWithEmail(users, email) == Some(n)
  {
    var r := FirstIndexWithEmail(users, email);
    assert r.Some?;
    assert !(r.value < n);
    assert !(n < r.value);
  }

  /** A login whose email is found and whose password hashes to the stored one succeeds. */
  lemma LoginAccepted(data: Data, hashPassword: string -> string, random: real, email: string, password: string)
    requires 0.0 <= random < 1.0
    requires FirstIndexWithEmail(data.users, email).Some?
    requires data.users[FirstIndexWithEmail(data.users, email).value].password == hashPassword(password)
    ensures Login(data, hashPassword, random, email, password).result.Ok?
  {
  }

  // ------------------------------------------------------------------ logout

  /** `users.find(u => u.userId === decodedToken.userId)`: the first user with the token's id. */
  function FirstIndexWithUserId(users: seq<User>, userId: Option<int>): (r: Option<nat>)
    ensures r.None? <==> forall i :: 0 <= i < |users| ==> userId != Some(users[i].userId)
    ensures r.Some? ==> r.value < |users| && userId == Some(users[r.value].userId)
                        && forall j :: 0 <= j < r.value ==> userId != Some(users[j].userId)
  {
    if users == [] then None
    else if userId == Some(users[0].userId) then Some(0)
    else match FirstIndexWithUserId(users[1..], userId)
      case None => None
      case Some(i) => Some(i + 1)
  }

  /**
   * `activeSessionIds.filter(id => id !== sessionId)`: every occurrence of
   * the session goes and every other id stays, as often as it was there. An
   * absent session id (`undefined`) equals no id, so nothing goes.
   */
  function WithoutSession(ids: seq<int>, sessionId: Option<int>): (r: seq<int>)
    ensures forall x :: x in r <==> x in ids && sessionId != Some(x)
    ensures forall x {:trigger multiset(r)[x]} :: sessionId != Some(x) ==> multiset(r)[x] == multiset(ids)[x]
    ensures sessionId.None? ==> r == ids
  {
    if ids == [] then []
    else
      var keep := if sessionId == Some(ids[0]) then [] else [ids[0]];
      assert ids == [ids[0]] + ids[1..];
      keep + WithoutSession(ids[1..], sessionId)
  }

  /**
   * `WithoutSession` is `filter` with the test `id !== sessionId`: one id is
   * kept exactly when it differs from the session, ...
   */
  lemma WithoutSessionOne(x: int, sessionId: Option<int>)
    ensures WithoutSession([x], sessionId) == if sessionId == Some(x) then [] else [x]
  {
    assert [x][1..] == [];
  }

  /**
   * ... and the result for a concatenation is the concatenation of the
   * results, so the kept ids stay in their original order.
   */
  lemma {:induction false} WithoutSessionConcat(a: seq<int>, b: seq<int>, sessionId: Option<int>)
    ensures WithoutSession(a + b, sessionId) == WithoutSession(a, sessionId) + WithoutSession(b, sessionId)
  {
    if a == [] {
      assert a + b == b;
    } else {
      var ab := a + b;
      assert ab[0] == a[0] && ab[1..] == a[1..] + b;
      WithoutSessionConcat(a[1..], b, sessionId);
    }
  }

  /** `userLogout`: the token must decode; then its session ends. */
  function Logout(data: Data, token: string): (o: Outcome<()>)
    ensures o.result.Err? <==> o.saved.None?
    ensures o.saved.Some? ==> |o.saved.value.users| == |data.users|
    ensures token == [] ==> o.result.Err?
  {
    match DecodeToken(token)
    case Err(e) => Fail(MalformedToken(e))
    case Ok(t) => EndSession(data, t)
  }

  /** The part of `userLogout` after decoding: the user the token names loses the token's session. */
  function EndSession(data: Data, t: TokenObject): (o: Outcome<()>)
    ensures o.result.Err? ==> o.result == Err(UserNotFound) && o.saved.None?
    ensures o.result.Ok? ==> o.saved.Some? && |o.saved.value.users| == |data.users|
  {
    match FirstIndexWithUserId(data.users, t.userId)
    case None => Fail(UserNotFound)
    case Some(i) =>
      var user := data.users[i];
      Outcome(Ok(()), Some(Data(data.users[i := user.(activeSessionIds := WithoutSession(user.activeSessionIds, t.sessionId))])))
  }

  /**
   * Ending a session changes only the user the token names, and of that
   * user only the active sessions: every occurrence of the token's session
   * goes and every other session stays, as often as it was there.
   */
  lemma EndSessionChangesOneUser(data: Data, t: TokenObject)
    requires FirstIndexWithUserId(data.users, t.userId).Some?
    ensures var i := FirstIndexWithUserId(data.users, t.userId).value;
            var users := After(data, EndSession(data, t)).users;
            var (u, v) := (data.users[i], users[i]);
            && EndSession(data, t).result == Ok(())
            && |users| == |data.users|
            && (forall j :: 0 <= j < |users| && j != i ==> users[j] == data.users[j])
            && v.(activeSessionIds := u.activeSessionIds) == u
            && v.activeSessionIds == WithoutSession(u.activeSessionIds, t.sessionId)
            && (forall x :: multiset(v.activeSessionIds)[x]
                           == if t.sessionId == Some(x) then 0 else multiset(u.activeSessionIds)[x])
  {
    var i := FirstIndexWithUserId(data.users, t.userId).value;
    var u := data.users[i];
    var v := u.(activeSessionIds := WithoutSession(u.activeSessionIds, t.sessionId));
    assert EndSession(data, t) == Outcome(Ok(()), Some(Data(data.users[i := v])));
    forall x ensures multiset(v.activeSessionIds)[x] == if t.sessionId == Some(x) then 0 else multiset(u.activeSessionIds)[x] {
      if t.sessionId == Some(x) {
        assert x !in v.activeSessionIds;
      }
    }
  }

  /** In a well-formed document an ended session is no longer active; a failure writes nothing. */
  lemma EndSessionRevokes(data: Data, t: TokenObject)
    requires WellFormed(data)
    ensures var o := EndSession(data, t);
            && (o.result.Err? ==> o.saved.None?)
            && (o.result.Ok? ==> !IsActiveToken(After(data, o).users, t))
  {
    match FirstIndexWithUserId(data.users, t.userId)
    case None =>
    case Some(i) =>
      var user := data.users[i].(activeSessionIds := WithoutSession(data.users[i].activeSessionIds, t.sessionId));
      var users := data.users[i := user];
      assert EndSession(data, t) == Outcome(Ok(()), Some(Data(users)));
      forall j | 0 <= j < |users| && j != i ensures t.userId != Some(users[j].userId) {
        assert users[j].userId == j && data.users[i].userId == i;
      }
      assert !HoldsSession(users[i], t);
  }

  /** Ending a session leaves every other active token active. */
  lemma EndSessionKeepsOthers(data: Data, t: TokenObject, other: TokenObject)
    requires IsActiveToken(data.users, other)
    requires other != t
    ensures IsActiveToken(After(data, EndSession(data, t)).users, other)
  {
    match FirstIndexWithUserId(data.users, t.userId)
    case None =>
    case Some(i) =>
      var user := data.users[i].(activeSessionIds := WithoutSession(data.users[i].activeSessionIds, t.sessionId));
      var users := data.users[i := user];
      assert EndSession(data, t) == Outcome(Ok(()), Some(Data(users)));
      var j :| 0 <= j < |data.users| && HoldsSession(data.users[j], other);
      if j == i {
        assert other.sessionId != t.sessionId by {
          assert other.userId == Some(data.users[i].userId) == t.userId;
        }
      }
      assert HoldsSession(users[j], other);
  }

  /** Replacing a user by one with the same id and email keeps the document well formed. */
  lemma ReplaceUserPreservesWellFormed(data: Data, i: nat, user: User)
    requires WellFormed(data)
    requires i < |data.users|
    requires user.userId == data.users[i].userId && user.email == data.users[i].email
    ensures WellFormed(Data(data.users[i := user]))
  {
    var users := data.users[i := user];
    assert forall j :: 0 <= j < |users| ==> users[j].userId == data.users[j].userId && users[j].email == data.users[j].email;
  }

  /** Ending a session keeps the document well formed. */
  lemma EndSessionPreservesWellFormed(data: Data, t: TokenObject)
    requires WellFormed(data)
    ensures WellFormed(After(data, EndSession(data, t)))
  {
    match FirstIndexWithUserId(data.users, t.userId)
    case None =>
    case Some(i) =>
      var user := data.users[i].(activeSessionIds := WithoutSession(data.users[i].activeSessionIds, t.sessionId));
      ReplaceUserPreservesWellFormed(data, i, user);
      assert After(data, EndSession(data, t)) == Data(data.users[i := user]);
  }

  /**
   * A logout that fails writes nothing. One that succeeds ends the token's
   * session and no other, and keeps the document well formed.
   */
  lemma LogoutEndsOnlyThatSession(data: Data, token: string, other: TokenObject)
    requires WellFormed(data)
    ensures var o := Logout(data, token);
            && (o.result.Err? ==> o.saved.None?)
            && (o.result.Ok? ==> !IsActiveToken(After(data, o).users, DecodeToken(token).value))
            && (IsActiveToken(data.users, other) && (DecodeToken(token).Ok? ==> other != DecodeToken(token).value)
                ==> IsActiveToken(After(data, o).users, other))
            && WellFormed(After(data, o))
  {
    match DecodeToken(token)
    case Err(_) =>
    case Ok(t) =>
      EndSessionRevokes(data, t);
      EndSessionPreservesWellFormed(data, t);
      if IsActiveToken(data.users, other) && other != t {
        EndSessionKeepsOthers(data, t, other);
      }
  }

  /** The token a successful login returns can be used to log out, and is not active afterwards. */
  lemma LoginThenLogout(data: Data, hashPassword: string -> string, random: real, email: string, password: string)
    requires 0.0 <= random < 1.0
    requires WellFormed(data)
    requires Login(data, hashPassword, random, email, password).result.Ok?
    ensures var o := Login(data, hashPassword, random, email, password);
            var loggedIn := After(data, o);
            var out := Logout(loggedIn, o.result.value);
            && out.result == Ok(())
            && DecodeToken(o.result.value).Ok?
            && !IsActiveToken(After(loggedIn, out).users, DecodeToken(o.result.value).value)
  {
    var o := Login(data, hashPassword, random, email, password);
    var loggedIn := After(data, o);
    LoginPreservesWellFormed(data, hashPassword, random, email, password);
    LoginTokenIsActive(data, hashPassword, random, email, password);
    var t := DecodeToken(o.result.value).value;
    var j :| 0 <= j < |loggedIn.users| && HoldsSession(loggedIn.users[j], t);
    assert FirstIndexWithUserId(loggedIn.users, t.userId).Some?;
    EndSessionRevokes(loggedIn, t);
  }

  // ----------------------------------------------------------- on the store

  /** `userRegister` against the store: it produces `Register`'s outcome and writes what it saves. */
  method UserRegister(store: Store, isEmail: string -> bool, hashPassword: string -> string, random: real,
                      email: string, password: string, nameFirst: string, nameLast: string)
    returns (r: Result<string, AuthError>)
    requires store.Valid()
    requires 0.0 <= random < 1.0
    modifies store
    ensures store.Valid()
    ensures var o := Register(old(store.View()), isEmail, hashPassword, random, email, password, nameFirst, nameLast);
            && r == o.result
            && store.View() == After(old(store.View()), o)
            && store.file == (if o.saved.Some? then o.saved else old(store.file))
  {
    var data := store.GetData();
    if FindUserWithEmail(data, email).Some? {
      return Err(EmailInUse);
    }
    if !isEmail(email) {
      return Err(InvalidEmail);
    }
    if !CheckNameIsValidInput(nameFirst) {
      return Err(InvalidFirstName);
    }
    if !CheckNameIsValidInput(nameLast) {
      return Err(InvalidLastName);
    }
    if !CheckValidPassword(password) {
      return Err(WeakPassword);
    }
    var user := User(|data.users|, nameFirst + " " + nameLast, email, hashPassword(password), 1, 0, [], 1, []);
    var newSessionId := GenerateSessionId(random);
    user := user.(activeSessionIds := user.activeSessionIds + [newSessionId]);
    assert user == NewUser(|data.users|, nameFirst, nameLast, email, hashPassword(password), newSessionId);
    var encodedToken := GenerateToken(user.userId, newSessionId);
    data := data.(users := data.users + [user]);
    store.SaveData(data);
    return Ok(encodedToken);
  }

  /** `userLogin` against the store. */
  method UserLogin(store: Store, hashPassword: string -> string, random: real, email: string, password: string)
    returns (r: Result<string, AuthError>)
    requires store.Valid()
    requires 0.0 <= random < 1.0
    modifies store
    ensures store.Valid()
    ensures var o := Login(old(store.View()), hashPassword, random, email, password);
            && r == o.result
            && store.View() == After(old(store.View()), o)
            && store.file == (if o.saved.Some? then o.saved else old(store.file))
  {
    var data := store.GetData();
    var found := FirstIndexWithEmail(data.users, email);
    if found.None? {
      return Err(InvalidCredentials);
    }
    var i := found.value;
    var user := data.users[i];

    if user.password != hashPassword(password) {
      user := user.(numFailedPasswordsSinceLastLogin := user.numFailedPasswordsSinceLastLogin + 1);
      data := data.(users := data.users[i := user]);
      store.SaveData(data);
      return Err(InvalidCredentials);
    }

    var newSessionId := GenerateSessionId(random);
    user := user.(numSuccessfulLogins := user.numSuccessfulLogins + 1,
                  numFailedPasswordsSinceLastLogin := 0,
                  totalSessionNum := user.totalSessionNum + 1,
                  activeSessionIds := user.activeSessionIds + [newSessionId]);
    var encodedToken := GenerateToken(user.userId, newSessionId);
    data := data.(users := data.users[i := user]);
    store.SaveData(data);
    return Ok(encodedToken);
  }

  /** `userLogout` against the store: the document is loaded before the token is decoded. */
  method UserLogout(store: Store, token: string) returns (r: Result<(), AuthError>)
    requires store.Valid()
    modifies store
    ensures store.Valid()
    ensures var o := Logout(old(store.View()), token);
            && r == o.result
            && store.View() == After(old(store.View()), o)
            && store.file == (if o.saved.Some? then o.saved else old(store.file))
  {
    var data := store.GetData();
    var decoded := DecodeToken(token);
    if decoded.Err? {
      return Err(MalformedToken(decoded.error));
    }
    var t := decoded.value;
    var found := FirstIndexWithUserId(data.users, t.userId);
    if found.None? {
      return Err(UserNotFound);
    }
    var i := found.value;
    var user := data.users[i];
    user := user.(activeSessionIds := WithoutSession(user.activeSessionIds, t.sessionId));
    data := data.(users := data.users[i := user]);
    store.SaveData(data);
    return Ok(());
  }
}
