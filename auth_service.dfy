/** The authentication service: who the current user is, according to the
    cookie session, and the login, signup and logout decision trees over it.
    Password checking and hashing are parameters (`verify`, `hash`); the
    clock is the `now` parameter. */
module AuthService {
  import opened Common
  import opened Tables
  import opened Model
  import opened Database
  import UserQueries

  /** The fields `getCurrentUser` demands: an id, a non-empty email, a role
      and a non-zero `lastUpdated` (JavaScript truthiness; the name may be missing). */
  predicate SessionComplete(s: Session)
  {
    s.id.Some? && Truthy(s.email) && s.role.Some? && s.lastUpdated.Some? && s.lastUpdated.value != 0
  }

  /** `getCurrentUser`: the session's user, with a missing name read as null. */
  function GetCurrentUser(s: Session): (r: Response<SessionUser, SessionStatus>)
    ensures r.success <==> SessionComplete(s)
    ensures r.success <==> r.data.Some?
    ensures r.state == (if SessionComplete(s) then SessionStatus.GetSuccess else SessionStatus.GetError)
    ensures r.data.Some? ==>
      Some(r.data.value.id) == s.id && Some(r.data.value.email) == s.email && Some(r.data.value.role) == s.role
      && r.data.value.name == s.name && Some(r.data.value.lastUpdated) == s.lastUpdated
  {
    if !SessionComplete(s) then
      Fail(SessionStatus.GetError)
    else
      Response(true, Some(SessionUser(s.id.value, s.email.value, s.name, s.role.value, s.lastUpdated.value)), SessionStatus.GetSuccess)
  }

  /** The caller identity every other service works with. */
  function Caller(s: Session): Option<SessionUser>
  {
    GetCurrentUser(s).data
  }

  /** What `session.update` writes after a successful login or signup. */
  function LoggedIn(u: User, now: int): Session
  {
    Session(Some(u.id), Some(u.email), Some(u.role), u.name, Some(now))
  }

  /** `login`. */
  function LoginSpec(s: Db, email: string, password: string, verify: (string, string) -> bool, now: int)
    : (Db, Response<(), LoginStatus>)
  {
    match UserQueries.FindByEmail(s.users, email)
    case None => (s, Fail(LoginStatus.UserNotFound))
    case Some(u) =>
      if !verify(password, u.passwordHash) then (s, Fail(LoginStatus.InvalidPassword))
      else (s.(session := LoggedIn(u, now)), Response(true, None, LoginStatus.LoginSuccess))
  }

  /** `signup`: an existing email logs in when the password matches; a new
      email creates a student account without a name and logs it in. */
  function SignupSpec(s: Db, email: string, password: string, verify: (string, string) -> bool,
                      hash: string -> string, now: int): (Db, Response<(), SignupStatus>)
  {
    match UserQueries.FindByEmail(s.users, email)
    case Some(u) =>
      if !verify(password, u.passwordHash) then (s, Fail(SignupStatus.EmailExists))
      else (s.(session := LoggedIn(u, now)), Response(true, None, SignupStatus.AutoLogin))
    case None =>
      var u := User(s.nextId, email, None, hash(password), UserRole.Student);
      (s.(users := s.users + [u], nextId := s.nextId + 1, session := LoggedIn(u, now)),
       Response(true, None, SignupStatus.SignupSuccess))
  }

  /** `logout`. */
  function LogoutSpec(s: Db): (Db, Response<(), LogoutStatus>)
  {
    (s.(session := EmptySession), Response(true, None, LogoutStatus.LogoutSuccess))
  }

  method Login(db: Store, email: string, password: string, verify: (string, string) -> bool, now: int)
    returns (r: Response<(), LoginStatus>)
    modifies db
    ensures (db.State(), r) == LoginSpec(old(db.State()), email, password, verify, now)
  {
    var user := UserQueries.FindByEmail(db.users, email);
    if user.None? {
      return Fail(LoginStatus.UserNotFound);
    }
    var isValid := verify(password, user.value.passwordHash);
    if !isValid {
      return Fail(LoginStatus.InvalidPassword);
    }
    db.session := LoggedIn(user.value, now);
    r := Response(true, None, LoginStatus.LoginSuccess);
  }

  method Signup(db: Store, email: string, password: string, verify: (string, string) -> bool,
                hash: string -> string, now: int) returns (r: Response<(), SignupStatus>)
    modifies db
    ensures (db.State(), r) == SignupSpec(old(db.State()), email, password, verify, hash, now)
  {
    var existing := UserQueries.FindByEmail(db.users, email);
    if existing.Some? {
      var isValid := verify(password, existing.value.passwordHash);
      if !isValid {
        return Fail(SignupStatus.EmailExists);
      }
      db.session := LoggedIn(existing.value, now);
      return Response(true, None, SignupStatus.AutoLogin);
    }
    var passwordHash := hash(password);
    var user := UserQueries.Create(db, email, None, passwordHash, UserRole.Student);
    db.session := LoggedIn(user, now);
    r := Response(true, None, SignupStatus.SignupSuccess);
  }

  method Logout(db: Store) returns (r: Response<(), LogoutStatus>)
    modifies db
    ensures (db.State(), r) == LogoutSpec(old(db.State()))
  {
    db.session := EmptySession;
    r := Response(true, None, LogoutStatus.LogoutSuccess);
  }

  // ---------------------------------------------------------------------------
  // Properties

  /** A failed login changes nothing; an unknown email and a wrong password
      are told apart. */
  lemma {:induction false} LoginFailures(s: Db, email: string, password: string, verify: (string, string) -> bool, now: int)
    requires UniqueKeys(s.users, UserEmail)
    ensures var (t, r) := LoginSpec(s, email, password, verify, now);
      && ((forall i :: 0 <= i < |s.users| ==> s.users[i].email != email) ==> t == s && r == Fail(LoginStatus.UserNotFound))
      && (forall i :: 0 <= i < |s.users| && s.users[i].email == email && !verify(password, s.users[i].passwordHash) ==>
            t == s && r == Fail(LoginStatus.InvalidPassword))
      && (!r.success ==> t == s)
  {
    var (t, r) := LoginSpec(s, email, password, verify, now);
    forall i | 0 <= i < |s.users| && s.users[i].email == email && !verify(password, s.users[i].passwordHash)
      ensures t == s && r == Fail(LoginStatus.InvalidPassword)
    {
      var u := UserQueries.FindByEmail(s.users, email).value;
      var j :| 0 <= j < |s.users| && s.users[j] == u;
      assert UserEmail(s.users[j]) == UserEmail(s.users[i]);
    }
  }

  /** A successful login stores exactly the user's identity, and the next
      `getCurrentUser` reads it back. */
  lemma {:induction false} LoginThenCurrentUser(s: Db, email: string, password: string, verify: (string, string) -> bool, now: int)
    requires LoginSpec(s, email, password, verify, now).1.success
    requires email != "" && now != 0
    ensures var t := LoginSpec(s, email, password, verify, now).0;
      && t == s.(session := t.session)
      && (exists i :: 0 <= i < |s.users| && s.users[i].email == email && verify(password, s.users[i].passwordHash)
            && Caller(t.session) == Some(SessionUser(s.users[i].id, email, s.users[i].name, s.users[i].role, now)))
  {
    var u := UserQueries.FindByEmail(s.users, email).value;
    var i :| 0 <= i < |s.users| && s.users[i] == u;
  }

  /** A new email creates exactly one student account without a name under
      a fresh id, and logs it in; the store's constraints still hold. */
  lemma {:induction false} SignupNewEmail(s: Db, email: string, password: string, verify: (string, string) -> bool,
                       hash: string -> string, now: int)
    requires forall i :: 0 <= i < |s.users| ==> s.users[i].email != email
    requires Constraints(s)
    ensures var (t, r) := SignupSpec(s, email, password, verify, hash, now);
      && r == Response(true, None, SignupStatus.SignupSuccess)
      && t.users == s.users + [User(s.nextId, email, None, hash(password), UserRole.Student)]
      && t.session == LoggedIn(User(s.nextId, email, None, hash(password), UserRole.Student), now)
      && t == s.(users := t.users, nextId := s.nextId + 1, session := t.session)
      && Constraints(t)
  {
    var u := User(s.nextId, email, None, hash(password), UserRole.Student);
    AppendUnique(s.users, UserId, u);
    AppendUnique(s.users, UserEmail, u);
  }

  /** An existing email never creates an account: a wrong password changes
      nothing and a right one only logs the owner in. */
  lemma {:induction false} SignupExistingEmail(s: Db, email: string, password: string, verify: (string, string) -> bool,
                            hash: string -> string, now: int, i: nat)
    requires i < |s.users| && s.users[i].email == email
    requires UniqueKeys(s.users, UserEmail)
    ensures var (t, r) := SignupSpec(s, email, password, verify, hash, now);
      && t.users == s.users && t.nextId == s.nextId
      && (!verify(password, s.users[i].passwordHash) ==> t == s && r == Fail(SignupStatus.EmailExists))
      && (verify(password, s.users[i].passwordHash) ==>
            t == s.(session := LoggedIn(s.users[i], now)) && r == Response(true, None, SignupStatus.AutoLogin))
  {
    var u := UserQueries.FindByEmail(s.users, email).value;
    var j :| 0 <= j < |s.users| && s.users[j] == u;
    assert UserEmail(s.users[j]) == UserEmail(s.users[i]);
  }

  /** After `logout` nobody is signed in. */
  lemma {:induction false} LogoutSignsOut(s: Db)
    ensures var t := LogoutSpec(s).0;
      t == s.(session := t.session) && Caller(t.session).None?
  {
  }
}
