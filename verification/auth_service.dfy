/**
 * AuthServiceImpl: the cross-kind uniqueness test, registration of a
 * top-level user (inactive, with a pending verification code) and of a
 * worker under the calling user, login with its active-account check, and
 * the three password flows (unlock, forgot, change).
 * The password encoder, the JWT provider, the generated verification code
 * and the caller are parameters.
 */
module AuthService {
  import opened Entities
  import opened Store
  import opened UserDetails
  import HomeService

  const NormalRole: string := "ROLE_NORMAL"
  const WorkerRole: string := "ROLE_WORKER"

  /** existsByUsernameOrEmail(s): `s` is a username or an e-mail of some user or some worker. */
  function ExistsByUsernameOrEmail(users: map<Id, User>, workers: map<Id, Worker>, s: string): (r: bool)
    ensures r <==>
      || (exists id :: id in users && (users[id].username == s || users[id].email == s))
      || (exists id :: id in workers && (workers[id].username == s || workers[id].email == s))
  {
    UserUsernameTaken(users, s) || UserEmailTaken(users, s) || WorkerUsernameTaken(workers, s) || WorkerEmailTaken(workers, s)
  }

  /** The test registration applies to a request field; a null field matches no row. */
  function KeyTaken(users: map<Id, User>, workers: map<Id, Worker>, key: Option<string>): (r: bool)
    ensures r <==> key.Some? && ExistsByUsernameOrEmail(users, workers, key.value)
  {
    key.Some? && ExistsByUsernameOrEmail(users, workers, key.value)
  }

  /** The name a request carries; the model stores the empty string for a null name. */
  function NameOf(request: UserRequest): string {
    if request.name.Some? then request.name.value else ""
  }

  /** The account registerForAdminUser saves: inactive, holding the one role, with the code pending. */
  function PendingUser(id: Id, request: UserRequest, role: Role, hash: string, code: string): (u: User)
    requires request.username.Some? && request.email.Some?
    ensures u.id == id && u.username == request.username.value && u.email == request.email.value
    ensures u.password == hash && u.roles == {role} && !u.deleted
    ensures u.status == Some(AccountStatus(false, Some(code), None))
  {
    User(id, NameOf(request), request.username.value, request.email.value, hash, {role}, false, false,
         Some(AccountStatus(false, Some(code), None)))
  }

  /** The worker registerForNormalUser saves: owned and created by the caller, with no account status. */
  function NewWorker(id: Id, request: UserRequest, role: Role, hash: string, caller: Id): (w: Worker)
    requires request.username.Some? && request.email.Some?
    ensures w.id == id && w.username == request.username.value && w.email == request.email.value
    ensures w.password == hash && w.roles == {role} && !w.deleted && w.deletedOn.None?
    ensures w.owner == caller && w.createdBy == caller && w.status.None?
  {
    Worker(id, NameOf(request), request.username.value, request.email.value, hash, {role}, false, false,
           None, None, caller, caller)
  }

  /** A worker as the user-shaped profile registerForNormalUser answers with. */
  function WorkerProfile(w: Worker): UserResponse {
    UserResponse(w.id, w.name, w.username, w.email, w.password, w.roles, w.active, w.deleted, None)
  }

  /** A new user whose keys are free keeps the user table's unique constraints. */
  lemma InsertUserKeepsUniqueKeys(users: map<Id, User>, workers: map<Id, Worker>, u: User)
    requires UniqueUserKeys(users) && u.id !in users
    requires !ExistsByUsernameOrEmail(users, workers, u.username) && !ExistsByUsernameOrEmail(users, workers, u.email)
    ensures UniqueUserKeys(users[u.id := u])
  {
    var after := users[u.id := u];
    forall a, b | a in after && b in after && a != b
      ensures after[a].username != after[b].username && after[a].email != after[b].email
    {
      if a == u.id {
        assert b in users;
      } else if b == u.id {
        assert a in users;
      }
    }
  }

  /** A new worker whose keys are free keeps the worker table's unique constraints. */
  lemma InsertWorkerKeepsUniqueKeys(users: map<Id, User>, workers: map<Id, Worker>, w: Worker)
    requires UniqueWorkerKeys(workers) && w.id !in workers
    requires !ExistsByUsernameOrEmail(users, workers, w.username) && !ExistsByUsernameOrEmail(users, workers, w.email)
    ensures UniqueWorkerKeys(workers[w.id := w])
  {
    var after := workers[w.id := w];
    forall a, b | a in after && b in after && a != b
      ensures after[a].username != after[b].username && after[a].email != after[b].email
    {
      if a == w.id {
        assert b in workers;
      } else if b == w.id {
        assert a in workers;
      }
    }
  }

  /**
   * The checks registerForAdminUser passes before it saves the account: both
   * keys free among users and workers, the ROLE_NORMAL role present, and a
   * password and both NOT NULL keys given.
   */
  predicate AdminRegistrationSaves(users: map<Id, User>, workers: map<Id, Worker>, roles: map<Id, Role>,
                                   request: UserRequest)
    requires UniqueRoleNames(roles)
  {
    && !KeyTaken(users, workers, request.username)
    && !KeyTaken(users, workers, request.email)
    && RoleByName(roles, NormalRole).Some?
    && request.password.Some? && request.username.Some? && request.email.Some?
  }

  /**
   * registerForAdminUser(request): refuses a username or e-mail already used
   * as either key by any user or worker; then needs the ROLE_NORMAL role, a
   * password to encode, and the NOT NULL username and e-mail; saves the
   * inactive account and sends the verification link. The link's text is
   * built from the saved name, so a null name fails after the save, with the
   * account stored and no mail sent.
   */
  method RegisterForAdminUser(db: Db, request: UserRequest, code: string, enc: PasswordEncoder)
    returns (r: Result<bool>)
    requires db.Valid()
    modifies db
    ensures db.Valid()
    ensures (KeyTaken(old(db.users), old(db.workers), request.username)
             || KeyTaken(old(db.users), old(db.workers), request.email)) ==> r == Err(AlreadyExists)
    ensures r == Err(RoleNotFound) <==>
      && !KeyTaken(old(db.users), old(db.workers), request.username)
      && !KeyTaken(old(db.users), old(db.workers), request.email)
      && RoleByName(old(db.roles), NormalRole).None?
    ensures (&& !KeyTaken(old(db.users), old(db.workers), request.username)
             && !KeyTaken(old(db.users), old(db.workers), request.email)
             && RoleByName(old(db.roles), NormalRole).Some? && request.password.None?) ==> r == Err(NullArgument)
    ensures (&& !KeyTaken(old(db.users), old(db.workers), request.username)
             && !KeyTaken(old(db.users), old(db.workers), request.email)
             && RoleByName(old(db.roles), NormalRole).Some? && request.password.Some?
             && (request.username.None? || request.email.None?)) ==> r == Err(NotNullViolation)
    ensures r.Ok? <==> AdminRegistrationSaves(old(db.users), old(db.workers), old(db.roles), request) && request.name.Some?
    ensures !AdminRegistrationSaves(old(db.users), old(db.workers), old(db.roles), request) ==> r.Err? && unchanged(db)
    ensures AdminRegistrationSaves(old(db.users), old(db.workers), old(db.roles), request) ==>
      var id := old(db.nextUserId);
      var role := old(db.roles)[RoleByName(old(db.roles), NormalRole).value];
      && id !in old(db.users)
      && (request.name.Some? ==> r == Ok(true))
      && (request.name.None? ==> r == Err(NullReference))
      && db.State() == old(db.State()).(
           users := old(db.users)[id := PendingUser(id, request, role, enc.encode(request.password.value), code)],
           nextUserId := id + 1,
           outbox := if request.name.Some? then old(db.outbox) + [VerificationLink(request.email.value, id, code)]
                     else old(db.outbox))
  {
    if KeyTaken(db.users, db.workers, request.username) || KeyTaken(db.users, db.workers, request.email) {
      return Err(AlreadyExists);
    }
    var role := RoleByName(db.roles, NormalRole);
    if role.None? {
      return Err(RoleNotFound);
    }
    if request.password.None? {
      return Err(NullArgument);
    }
    var hash := enc.encode(request.password.value);
    if request.username.None? || request.email.None? {
      return Err(NotNullViolation);
    }
    var user := PendingUser(db.nextUserId, request, db.roles[role.value], hash, code);
    InsertUserKeepsUniqueKeys(db.users, db.workers, user);
    db.users := db.users[user.id := user];
    db.nextUserId := db.nextUserId + 1;
    if request.name.None? {
      return Err(NullReference);
    }
    db.outbox := db.outbox + [VerificationLink(user.email, user.id, code)];
    r := Ok(true);
  }

  /**
   * registerForNormalUser(request): the same key test, then the calling user
   * (looked up by the username the session carries), the encoded password,
   * the ROLE_WORKER role and the NOT NULL keys; saves a worker owned and
   * created by that user.
   */
  method RegisterForNormalUser(db: Db, request: UserRequest, callerUsername: string, enc: PasswordEncoder)
    returns (r: Result<UserResponse>)
    requires db.Valid()
    modifies db
    ensures db.Valid()
    ensures (KeyTaken(old(db.users), old(db.workers), request.username)
             || KeyTaken(old(db.users), old(db.workers), request.email)) ==> r == Err(AlreadyExists)
    ensures r == Err(NotFound) <==>
      && !KeyTaken(old(db.users), old(db.workers), request.username)
      && !KeyTaken(old(db.users), old(db.workers), request.email)
      && UserByUsername(old(db.users), callerUsername).None?
    ensures (&& !KeyTaken(old(db.users), old(db.workers), request.username)
             && !KeyTaken(old(db.users), old(db.workers), request.email)
             && UserByUsername(old(db.users), callerUsername).Some?
             && request.password.None?) ==> r == Err(NullArgument)
    ensures (&& !KeyTaken(old(db.users), old(db.workers), request.username)
             && !KeyTaken(old(db.users), old(db.workers), request.email)
             && UserByUsername(old(db.users), callerUsername).Some?
             && request.password.Some? && RoleByName(old(db.roles), WorkerRole).None?) ==> r == Err(RoleNotFound)
    ensures (&& !KeyTaken(old(db.users), old(db.workers), request.username)
             && !KeyTaken(old(db.users), old(db.workers), request.email)
             && UserByUsername(old(db.users), callerUsername).Some?
             && request.password.Some? && RoleByName(old(db.roles), WorkerRole).Some?
             && (request.username.None? || request.email.None?)) ==> r == Err(NotNullViolation)
    ensures r.Ok? <==>
      && !KeyTaken(old(db.users), old(db.workers), request.username)
      && !KeyTaken(old(db.users), old(db.workers), request.email)
      && UserByUsername(old(db.users), callerUsername).Some?
      && request.password.Some?
      && RoleByName(old(db.roles), WorkerRole).Some?
      && request.username.Some? && request.email.Some?
    ensures r.Err? ==> unchanged(db)
    ensures r.Ok? ==>
      var id := old(db.nextWorkerId);
      var caller := UserByUsername(old(db.users), callerUsername).value;
      var role := old(db.roles)[RoleByName(old(db.roles), WorkerRole).value];
      var w := NewWorker(id, request, role, enc.encode(request.password.value), caller);
      && id !in old(db.workers)
      && r.value == WorkerProfile(w)
      && db.State() == old(db.State()).(workers := old(db.workers)[id := w], nextWorkerId := id + 1)
  {
    if KeyTaken(db.users, db.workers, request.username) || KeyTaken(db.users, db.workers, request.email) {
      return Err(AlreadyExists);
    }
    var caller := UserByUsername(db.users, callerUsername);
    if caller.None? {
      return Err(NotFound);
    }
    if request.password.None? {
      return Err(NullArgument);
    }
    var hash := enc.encode(request.password.value);
    var role := RoleByName(db.roles, WorkerRole);
    if role.None? {
      return Err(RoleNotFound);
    }
    if request.username.None? || request.email.None? {
      return Err(NotNullViolation);
    }
    var worker := NewWorker(db.nextWorkerId, request, db.roles[role.value], hash, caller.value);
    InsertWorkerKeepsUniqueKeys(db.users, db.workers, worker);
    db.workers := db.workers[worker.id := worker];
    db.nextWorkerId := db.nextWorkerId + 1;
    r := Ok(WorkerProfile(worker));
  }

  /**
   * Registering the same request twice: once the first attempt saved the
   * account (even when its mail then failed), the second finds the keys taken.
   */
  method RegisterTwice(db: Db, request: UserRequest, code: string, enc: PasswordEncoder)
    returns (first: Result<bool>, second: Result<bool>)
    requires db.Valid()
    modifies db
    ensures AdminRegistrationSaves(old(db.users), old(db.workers), old(db.roles), request) ==>
      second == Err(AlreadyExists)
    ensures first.Ok? ==> second == Err(AlreadyExists)
  {
    first := RegisterForAdminUser(db, request, code, enc);
    if AdminRegistrationSaves(old(db.users), old(db.workers), old(db.roles), request) {
      assert db.users[old(db.nextUserId)].username == request.username.value;
    }
    second := RegisterForAdminUser(db, request, code, enc);
  }

  // ---------------------------------------------------------------------
  // Login.
  // ---------------------------------------------------------------------

  /**
   * The authentication manager: the user loaded by username whose stored
   * hash matches the password. Workers are not loaded by this service.
   */
  function Authenticate(users: map<Id, User>, username: string, password: string, enc: PasswordEncoder)
    : (r: Option<Id>)
    requires UniqueUserKeys(users)
    ensures r.Some? ==>
      r.value in users && users[r.value].username == username && enc.matches(password, users[r.value].password)
    ensures r.None? ==>
      forall id :: id in users && users[id].username == username ==> !enc.matches(password, users[id].password)
  {
    match UserByUsername(users, username)
    case None => None
    case Some(id) => if enc.matches(password, users[id].password) then Some(id) else None
  }

  datatype LoginResponse = LoginResponse(jwtToken: string, user: Details)

  /**
   * login(identifier, password): authenticates by username, then checks the
   * account status of the user whose e-mail is the identifier (a missing
   * user or status is a null dereference), and issues the JWT for the
   * authenticated principal.
   */
  function Login(users: map<Id, User>, workers: map<Id, Worker>, identifier: string, password: string,
                 enc: PasswordEncoder, jwt: Details -> string): (r: Result<LoginResponse>)
    requires UniqueUserKeys(users)
    ensures r == Err(BadCredentials) <==> Authenticate(users, identifier, password, enc).None?
    ensures r.Ok? ==>
      && Authenticate(users, identifier, password, enc).Some?
      && UserByEmail(users, identifier).Some?
      && users[UserByEmail(users, identifier).value].status.Some?
      && users[UserByEmail(users, identifier).value].status.value.isActive
      && var id := Authenticate(users, identifier, password, enc).value;
         r.value == LoginResponse(jwt(BuildFromUser(users[id], WorkersOf(workers, id))),
                                  BuildFromUser(users[id], WorkersOf(workers, id)))
    ensures (Authenticate(users, identifier, password, enc).Some? && UserByEmail(users, identifier).Some?
             && users[UserByEmail(users, identifier).value].status.Some?
             && !users[UserByEmail(users, identifier).value].status.value.isActive) ==> r == Err(AccountInactive)
    ensures (Authenticate(users, identifier, password, enc).Some?
             && (|| UserByEmail(users, identifier).None?
                 || users[UserByEmail(users, identifier).value].status.None?)) ==> r == Err(NullReference)
    ensures (Authenticate(users, identifier, password, enc).Some? && UserByEmail(users, identifier).Some?
             && users[UserByEmail(users, identifier).value].status.Some?
             && users[UserByEmail(users, identifier).value].status.value.isActive) ==> r.Ok?
  {
    match Authenticate(users, identifier, password, enc)
    case None => Err(BadCredentials)
    case Some(id) =>
      var details := BuildFromUser(users[id], WorkersOf(workers, id));
      match UserByEmail(users, identifier)
      case None => Err(NullReference)
      case Some(holder) =>
        if users[holder].status.None? then Err(NullReference)
        else if !users[holder].status.value.isActive then Err(AccountInactive)
        else Ok(LoginResponse(jwt(details), details))
  }

  /**
   * Login succeeds only for an identifier that is at once some user's
   * username (authentication) and some user's e-mail (the active check).
   */
  lemma LoginNeedsUsernameAndEmail(users: map<Id, User>, workers: map<Id, Worker>, identifier: string,
                                   password: string, enc: PasswordEncoder, jwt: Details -> string)
    requires UniqueUserKeys(users)
    requires Login(users, workers, identifier, password, enc, jwt).Ok?
    ensures UserUsernameTaken(users, identifier) && UserEmailTaken(users, identifier)
  {
  }

  /**
   * A freshly registered account, whose username is also its e-mail so that
   * both lookups of login find it, is refused as inactive with its right
   * password: the pending status is the cause.
   */
  lemma {:induction false} PendingUserCannotLogIn(users: map<Id, User>, workers: map<Id, Worker>,
                                                  request: UserRequest, role: Role, password: string,
                                                  code: string, enc: PasswordEncoder,
                                                  jwt: Details -> string, id: Id)
    requires request.username.Some? && request.email == request.username
    requires UniqueUserKeys(users) && id !in users && Sound(enc)
    requires !ExistsByUsernameOrEmail(users, workers, request.username.value)
    ensures var after := users[id := PendingUser(id, request, role, enc.encode(password), code)];
      && UniqueUserKeys(after)
      && Login(after, workers, request.username.value, password, enc, jwt) == Err(AccountInactive)
  {
    var u := PendingUser(id, request, role, enc.encode(password), code);
    InsertUserKeepsUniqueKeys(users, workers, u);
    var after := users[id := u];
    var x := request.username.value;
    assert enc.matches(password, u.password);
    assert after[id].username == x && after[id].email == x;
    assert UserUsernameTaken(after, x) && UserEmailTaken(after, x);
    assert UserByUsername(after, x) == Some(id);
    assert UserByEmail(after, x) == Some(id);
  }

  /** The same account, once verified, logs in with its password. */
  lemma {:induction false} VerifiedUserCanLogIn(users: map<Id, User>, workers: map<Id, Worker>,
                                                request: UserRequest, role: Role, password: string,
                                                code: string, enc: PasswordEncoder,
                                                jwt: Details -> string, id: Id)
    requires request.username.Some? && request.email == request.username
    requires UniqueUserKeys(users) && id !in users && Sound(enc)
    requires !ExistsByUsernameOrEmail(users, workers, request.username.value)
    ensures var u := PendingUser(id, request, role, enc.encode(password), code);
      var verified := users[id := HomeService.Verified(u)];
      && UniqueUserKeys(verified)
      && Login(verified, workers, request.username.value, password, enc, jwt).Ok?
  {
    var u := PendingUser(id, request, role, enc.encode(password), code);
    var v := HomeService.Verified(u);
    assert v.username == u.username && v.email == u.email && v.password == u.password;
    InsertUserKeepsUniqueKeys(users, workers, v);
    var after := users[id := v];
    var x := request.username.value;
    assert enc.matches(password, v.password);
    assert after[id].username == x && after[id].email == x;
    assert UserUsernameTaken(after, x) && UserEmailTaken(after, x);
    assert UserByUsername(after, x) == Some(id);
    assert UserByEmail(after, x) == Some(id);
  }

  // ---------------------------------------------------------------------
  // Password flows.
  // ---------------------------------------------------------------------

  /**
   * unlockAccount(form, identifier): for the single user matching the
   * identifier as username or e-mail, the temporary password must match the
   * stored hash and the new password its confirmation; then the new password
   * is stored encoded, the status is replaced by a bare active one, and the
   * unlock mail is sent. The form's fields may be null: the encoder refuses a
   * null temporary password, and a null new password is dereferenced by the
   * comparison with its confirmation (a null confirmation merely differs).
   */
  method UnlockAccount(db: Db, identifier: string, tempPassword: Option<string>, newPassword: Option<string>,
                       confirmPassword: Option<string>, enc: PasswordEncoder) returns (r: Result<bool>)
    requires db.Valid()
    modifies db
    ensures db.Valid()
    ensures UsersByUsernameOrEmail(old(db.users), identifier, identifier) == {} ==> r == Err(NotFound)
    ensures |UsersByUsernameOrEmail(old(db.users), identifier, identifier)| > 1 ==> r == Err(NonUniqueResult)
    ensures r.Err? ==> unchanged(db)
    ensures r.Ok? ==>
      && UsersByUsernameOrEmail(old(db.users), identifier, identifier) != {}
      && var id := Single(UsersByUsernameOrEmail(old(db.users), identifier, identifier)).id;
         var u := old(db.users)[id];
         && tempPassword.Some? && newPassword.Some?
         && enc.matches(tempPassword.value, u.password)
         && confirmPassword == newPassword
         && db.State() == old(db.State()).(
              users := old(db.users)[id := u.(password := enc.encode(newPassword.value),
                                               status := Some(AccountStatus(true, None, None)))],
              outbox := old(db.outbox) + [AccountUnlocked(u.email)])
    ensures forall id :: Single(UsersByUsernameOrEmail(old(db.users), identifier, identifier)) == OneRow(id) ==>
      && (tempPassword.None? ==> r == Err(NullArgument))
      && (tempPassword.Some? && !enc.matches(tempPassword.value, old(db.users)[id].password) ==>
            r == Err(IncorrectPassword))
      && (tempPassword.Some? && enc.matches(tempPassword.value, old(db.users)[id].password) ==>
            && (newPassword.None? ==> r == Err(NullReference))
            && (newPassword.Some? && confirmPassword != newPassword ==> r == Err(PasswordMismatch))
            && (newPassword.Some? && confirmPassword == newPassword ==> r == Ok(true)))
  {
    var found := Single(UsersByUsernameOrEmail(db.users, identifier, identifier));
    if found.NoRow? {
      return Err(NotFound);
    }
    if found.ManyRows? {
      return Err(NonUniqueResult);
    }
    var user := db.users[found.id];
    if tempPassword.None? {
      return Err(NullArgument);
    }
    if !enc.matches(tempPassword.value, user.password) {
      return Err(IncorrectPassword);
    }
    if newPassword.None? {
      return Err(NullReference);
    }
    if confirmPassword != newPassword {
      return Err(PasswordMismatch);
    }
    user := user.(password := enc.encode(newPassword.value));
    user := user.(status := Some(AccountStatus(true, None, None)));
    db.users := db.users[found.id := user];
    db.outbox := db.outbox + [AccountUnlocked(user.email)];
    r := Ok(true);
  }

  /**
   * forgotPassword(form, identifier): for the single user matching the
   * identifier, stores the new password encoded when it equals its
   * confirmation; nothing else changes. A null new password is dereferenced
   * by the comparison; a null confirmation merely differs.
   */
  method ForgotPassword(db: Db, identifier: string, newPassword: Option<string>, confirmPassword: Option<string>,
                        enc: PasswordEncoder) returns (r: Result<bool>)
    requires db.Valid()
    modifies db
    ensures db.Valid()
    ensures UsersByUsernameOrEmail(old(db.users), identifier, identifier) == {} ==> r == Err(NotFound)
    ensures |UsersByUsernameOrEmail(old(db.users), identifier, identifier)| > 1 ==> r == Err(NonUniqueResult)
    ensures |UsersByUsernameOrEmail(old(db.users), identifier, identifier)| == 1 ==>
      && (r == Err(NullReference) <==> newPassword.None?)
      && (r == Err(PasswordMismatch) <==> newPassword.Some? && confirmPassword != newPassword)
    ensures r.Err? ==> unchanged(db)
    ensures r.Ok? <==>
      |UsersByUsernameOrEmail(old(db.users), identifier, identifier)| == 1
      && newPassword.Some? && confirmPassword == newPassword
    ensures r.Ok? ==>
      var id := Single(UsersByUsernameOrEmail(old(db.users), identifier, identifier)).id;
      && r.value
      && db.State() == old(db.State()).(users := old(db.users)[id := old(db.users)[id].(password := enc.encode(newPassword.value))])
  {
    var found := Single(UsersByUsernameOrEmail(db.users, identifier, identifier));
    if found.NoRow? {
      return Err(NotFound);
    }
    if found.ManyRows? {
      return Err(NonUniqueResult);
    }
    if newPassword.None? {
      return Err(NullReference);
    }
    if confirmPassword != newPassword {
      return Err(PasswordMismatch);
    }
    var user := db.users[found.id];
    user := user.(password := enc.encode(newPassword.value));
    db.users := db.users[found.id := user];
    r := Ok(true);
  }

  /**
   * changePassword(form): the logged-in principal's e-mail finds the user (a
   * missing user is dereferenced before it is tested); the old password must
   * match; then the new password is stored encoded. The encoder refuses a
   * null old password and a null new password.
   */
  method ChangePassword(db: Db, callerEmail: string, oldPassword: Option<string>, newPassword: Option<string>,
                        enc: PasswordEncoder) returns (r: Result<bool>)
    requires db.Valid()
    modifies db
    ensures db.Valid()
    ensures UserByEmail(old(db.users), callerEmail).None? ==> r == Err(NullReference)
    ensures UserByEmail(old(db.users), callerEmail).Some? ==>
      var stored := old(db.users)[UserByEmail(old(db.users), callerEmail).value].password;
      && (oldPassword.None? ==> r == Err(NullArgument))
      && (r == Err(IncorrectPassword) <==> oldPassword.Some? && !enc.matches(oldPassword.value, stored))
      && (oldPassword.Some? && enc.matches(oldPassword.value, stored) && newPassword.None? ==>
            r == Err(NullArgument))
    ensures r.Err? ==> unchanged(db)
    ensures r.Ok? <==>
      UserByEmail(old(db.users), callerEmail).Some? && oldPassword.Some? && newPassword.Some?
      && enc.matches(oldPassword.value, old(db.users)[UserByEmail(old(db.users), callerEmail).value].password)
    ensures r.Ok? ==>
      var id := UserByEmail(old(db.users), callerEmail).value;
      && r.value
      && db.State() == old(db.State()).(users := old(db.users)[id := old(db.users)[id].(password := enc.encode(newPassword.value))])
  {
    var found := UserByEmail(db.users, callerEmail);
    if found.None? {
      return Err(NullReference);
    }
    var user := db.users[found.value];
    if oldPassword.None? {
      return Err(NullArgument);
    }
    if !enc.matches(oldPassword.value, user.password) {
      return Err(IncorrectPassword);
    }
    if newPassword.None? {
      return Err(NullArgument);
    }
    user := user.(password := enc.encode(newPassword.value));
    db.users := db.users[found.value := user];
    r := Ok(true);
  }

  /**
   * After any of the password flows stores `enc.encode(raw)` for a user, a
   * sound encoder authenticates that user's username with `raw`.
   */
  lemma {:induction false} NewPasswordAuthenticates(users: map<Id, User>, id: Id, raw: string, enc: PasswordEncoder)
    requires UniqueUserKeys(users) && id in users && Sound(enc)
    ensures var after := users[id := users[id].(password := enc.encode(raw))];
      UniqueUserKeys(after) && Authenticate(after, users[id].username, raw, enc) == Some(id)
  {
    var after := users[id := users[id].(password := enc.encode(raw))];
    assert forall k :: k in after ==> after[k].username == users[k].username && after[k].email == users[k].email;
    assert UniqueUserKeys(after);
    assert enc.matches(raw, after[id].password);
    var found := UserByUsername(after, users[id].username);
    assert found.Some?;
  }
}
