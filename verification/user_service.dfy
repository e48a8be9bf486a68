/**
 * UserServiceImpl: creating a user (unique username and e-mail among users,
 * the ROLE_USER role, active), reading one by id, and the partial update in
 * which every provided field replaces the stored one.
 */
module UserService {
  import opened Entities
  import opened Store

  const UserRole: string := "ROLE_USER"

  /** The user create saves: active, holding the one role, with no account status. */
  function NewUser(id: Id, request: UserRequest, role: Role, hash: string): (u: User)
    requires request.username.Some? && request.email.Some?
    ensures u.id == id && u.username == request.username.value && u.email == request.email.value
    ensures u.password == hash && u.roles == {role} && u.active && !u.deleted && u.status.None?
  {
    var name := if request.name.Some? then request.name.value else "";
    User(id, name, request.username.value, request.email.value, hash, {role}, true, false, None)
  }

  /**
   * create(request): username, then e-mail, must be free among users (workers
   * are not consulted); the password is encoded, the ROLE_USER role must
   * exist, and the NOT NULL keys must be present.
   */
  method Create(db: Db, request: UserRequest, enc: PasswordEncoder) returns (r: Result<UserResponse>)
    requires db.Valid()
    modifies db
    ensures db.Valid()
    ensures request.username.Some? && UserUsernameTaken(old(db.users), request.username.value) ==>
      r == Err(UsernameTaken)
    ensures r == Err(EmailTaken) <==>
      && !(request.username.Some? && UserUsernameTaken(old(db.users), request.username.value))
      && request.email.Some? && UserEmailTaken(old(db.users), request.email.value)
    ensures (&& !(request.username.Some? && UserUsernameTaken(old(db.users), request.username.value))
             && !(request.email.Some? && UserEmailTaken(old(db.users), request.email.value))
             && request.password.None?) ==> r == Err(NullArgument)
    ensures (&& !(request.username.Some? && UserUsernameTaken(old(db.users), request.username.value))
             && !(request.email.Some? && UserEmailTaken(old(db.users), request.email.value))
             && request.password.Some? && RoleByName(old(db.roles), UserRole).None?) ==> r == Err(RoleNotFound)
    ensures (&& !(request.username.Some? && UserUsernameTaken(old(db.users), request.username.value))
             && !(request.email.Some? && UserEmailTaken(old(db.users), request.email.value))
             && request.password.Some? && RoleByName(old(db.roles), UserRole).Some?
             && (request.username.None? || request.email.None?)) ==> r == Err(NotNullViolation)
    ensures r.Ok? <==>
      && request.username.Some? && !UserUsernameTaken(old(db.users), request.username.value)
      && request.email.Some? && !UserEmailTaken(old(db.users), request.email.value)
      && request.password.Some?
      && RoleByName(old(db.roles), UserRole).Some?
    ensures r.Err? ==> unchanged(db)
    ensures r.Ok? ==>
      var id := old(db.nextUserId);
      var role := old(db.roles)[RoleByName(old(db.roles), UserRole).value];
      var u := NewUser(id, request, role, enc.encode(request.password.value));
      && id !in old(db.users)
      && r.value == ToResponse(u)
      && db.State() == old(db.State()).(users := old(db.users)[id := u], nextUserId := id + 1)
  {
    if request.username.Some? && UserUsernameTaken(db.users, request.username.value) {
      return Err(UsernameTaken);
    }
    if request.email.Some? && UserEmailTaken(db.users, request.email.value) {
      return Err(EmailTaken);
    }
    if request.password.None? {
      return Err(NullArgument);
    }
    var hash := enc.encode(request.password.value);
    var role := RoleByName(db.roles, UserRole);
    if role.None? {
      return Err(RoleNotFound);
    }
    if request.username.None? || request.email.None? {
      return Err(NotNullViolation);
    }
    var user := NewUser(db.nextUserId, request, db.roles[role.value], hash);
    var users := db.users[user.id := user];
    assert UniqueUserKeys(users) by {
      forall a, b | a in users && b in users && a != b
        ensures users[a].username != users[b].username && users[a].email != users[b].email
      {
        if a == user.id {
          assert b in db.users;
        } else if b == user.id {
          assert a in db.users;
        }
      }
    }
    db.users := users;
    db.nextUserId := db.nextUserId + 1;
    r := Ok(ToResponse(user));
  }

  /**
   * getById: userRepository.findById(id).orElseThrow(...), mapped to the
   * response, or NotFound. Each service runs this lookup on its own table.
   */
  function GetById(users: map<Id, User>, id: Id): (r: Result<UserResponse>)
    ensures r.Ok? <==> id in users
    ensures r.Ok? ==> r.value == ToResponse(users[id])
    ensures r.Err? ==> r.error == NotFound
  {
    if id in users then Ok(ToResponse(users[id])) else Err(NotFound)
  }

  /**
   * The roles a set of names denotes: every name must name a stored role,
   * otherwise the whole lookup fails.
   */
  function RolesNamed(roles: map<Id, Role>, names: set<string>): (r: Result<set<Role>>)
    requires UniqueRoleNames(roles)
    ensures r.Ok? <==> forall n :: n in names ==> exists id :: id in roles && roles[id].name == n
    ensures r.Err? ==> r.error == RoleNotFound
    ensures r.Ok? ==> forall role :: role in r.value <==> role in roles.Values && role.name in names
  {
    if forall n :: n in names ==> RoleByName(roles, n).Some? then
      var found := set n | n in names :: roles[RoleByName(roles, n).value];
      assert forall role :: role in found <==> role in roles.Values && role.name in names by {
        forall role
          ensures role in found <==> role in roles.Values && role.name in names
        {
          if role in roles.Values && role.name in names {
            var id :| id in roles && roles[id] == role;
            assert RoleByName(roles, role.name) == Some(id);
          }
        }
      }
      Ok(found)
    else
      Err(RoleNotFound)
  }

  /**
   * The user after update with a request whose role names resolved to
   * `named`: a provided username, e-mail or non-empty role list replaces the
   * stored one, a provided password is stored encoded; the name, flags and
   * account status never change.
   */
  function ApplyUpdate(u: User, request: UserRequest, named: set<Role>, enc: PasswordEncoder): (v: User)
    ensures v.id == u.id && v.name == u.name && v.active == u.active && v.deleted == u.deleted
    ensures v.status == u.status
    ensures request.username.None? ==> v.username == u.username
    ensures request.email.None? ==> v.email == u.email
    ensures request.password.None? ==> v.password == u.password
    ensures request.roles.None? || request.roles.value == {} ==> v.roles == u.roles
    ensures request.username.Some? ==> v.username == request.username.value
    ensures request.email.Some? ==> v.email == request.email.value
    ensures request.password.Some? ==> v.password == enc.encode(request.password.value)
    ensures request.roles.Some? && request.roles.value != {} ==> v.roles == named
  {
    var username := if request.username.Some? then request.username.value else u.username;
    var email := if request.email.Some? then request.email.value else u.email;
    var roles := if request.roles.Some? && request.roles.value != {} then named else u.roles;
    var password := if request.password.Some? then enc.encode(request.password.value) else u.password;
    u.(username := username, email := email, roles := roles, password := password)
  }

  /**
   * Sending the same update again changes nothing more, except the stored
   * hash of a provided password: a salting encoder hashes it anew, so only
   * that the new hash matches the password is promised.
   */
  lemma UpdateIsIdempotent(u: User, request: UserRequest, named: set<Role>, enc: PasswordEncoder)
    ensures var once := ApplyUpdate(u, request, named, enc);
      var twice := ApplyUpdate(once, request, named, enc);
      && twice.(password := once.password) == once
      && (request.password.None? ==> twice == once)
      && (Sound(enc) && request.password.Some? ==> enc.matches(request.password.value, twice.password))
  {
  }

  /** A username that differs from the user's own and belongs to another user. */
  predicate UsernameClash(users: map<Id, User>, id: Id, username: Option<string>)
    requires id in users
  {
    username.Some? && username.value != users[id].username && UserUsernameTaken(users, username.value)
  }

  /** An e-mail that differs from the user's own and belongs to another user. */
  predicate EmailClash(users: map<Id, User>, id: Id, email: Option<string>)
    requires id in users
  {
    email.Some? && email.value != users[id].email && UserEmailTaken(users, email.value)
  }

  /** The role names the update resolves: only a provided, non-empty list is looked up. */
  predicate ChangesRoles(request: UserRequest) {
    request.roles.Some? && request.roles.value != {}
  }

  /** Replacing a user by one whose keys are its own or free keeps the unique constraints. */
  lemma ReplaceUserKeepsUniqueKeys(users: map<Id, User>, id: Id, v: User)
    requires UniqueUserKeys(users) && id in users
    requires v.username == users[id].username || !UserUsernameTaken(users, v.username)
    requires v.email == users[id].email || !UserEmailTaken(users, v.email)
    ensures UniqueUserKeys(users[id := v])
  {
    var after := users[id := v];
    forall a, b | a in after && b in after && a != b
      ensures after[a].username != after[b].username && after[a].email != after[b].email
    {
      if a == id {
        assert b in users;
      } else if b == id {
        assert a in users;
      }
    }
  }

  /**
   * The checks update makes, in its order: the user must exist, a new
   * username must not be another user's, a new e-mail must not be another
   * user's, and every role name of a provided, non-empty list must name a
   * role. On success, the roles those names denote.
   */
  function UpdateCheck(users: map<Id, User>, roles: map<Id, Role>, id: Id, request: UserRequest)
    : (r: Result<set<Role>>)
    requires UniqueRoleNames(roles)
    ensures id !in users ==> r == Err(NotFound)
    ensures id in users && UsernameClash(users, id, request.username) ==> r == Err(UsernameTaken)
    ensures (id in users && !UsernameClash(users, id, request.username)
             && EmailClash(users, id, request.email)) ==> r == Err(EmailTaken)
    ensures (&& id in users && !UsernameClash(users, id, request.username) && !EmailClash(users, id, request.email)
             && ChangesRoles(request) && RolesNamed(roles, request.roles.value).Err?) ==> r == Err(RoleNotFound)
    ensures r.Ok? <==>
      && id in users
      && !UsernameClash(users, id, request.username)
      && !EmailClash(users, id, request.email)
      && (ChangesRoles(request) ==> RolesNamed(roles, request.roles.value).Ok?)
    ensures r.Ok? && ChangesRoles(request) ==>
      forall role :: role in r.value <==> role in roles.Values && role.name in request.roles.value
  {
    if id !in users then Err(NotFound)
    else if UsernameClash(users, id, request.username) then Err(UsernameTaken)
    else if EmailClash(users, id, request.email) then Err(EmailTaken)
    else if ChangesRoles(request) then RolesNamed(roles, request.roles.value)
    else Ok({})
  }

  /**
   * update(id, request): applies the provided fields once UpdateCheck passes;
   * any failure saves nothing.
   */
  method Update(db: Db, id: Id, request: UserRequest, enc: PasswordEncoder) returns (r: Result<UserResponse>)
    requires db.Valid()
    modifies db
    ensures db.Valid()
    ensures r.Err? <==> UpdateCheck(old(db.users), old(db.roles), id, request).Err?
    ensures r.Err? ==> r.error == UpdateCheck(old(db.users), old(db.roles), id, request).error && unchanged(db)
    ensures r.Ok? ==>
      var v := ApplyUpdate(old(db.users)[id], request, UpdateCheck(old(db.users), old(db.roles), id, request).value, enc);
      && r.value == ToResponse(v)
      && db.State() == old(db.State()).(users := old(db.users)[id := v])
  {
    var checked := UpdateCheck(db.users, db.roles, id, request);
    if checked.Err? {
      return Err(checked.error);
    }
    var user := db.users[id];
    if request.username.Some? && request.username.value != user.username {
      user := user.(username := request.username.value);
    }
    if request.email.Some? && request.email.value != user.email {
      user := user.(email := request.email.value);
    }
    if ChangesRoles(request) {
      user := user.(roles := checked.value);
    }
    if request.password.Some? {
      user := user.(password := enc.encode(request.password.value));
    }
    assert user == ApplyUpdate(db.users[id], request, checked.value, enc);
    ReplaceUserKeepsUniqueKeys(db.users, id, user);
    db.users := db.users[id := user];
    r := Ok(ToResponse(user));
  }

  /**
   * Sending an update that succeeded once again succeeds with the same
   * profile, up to the hash of a provided password, which still matches it.
   */
  method UpdateTwice(db: Db, id: Id, request: UserRequest, enc: PasswordEncoder)
    returns (first: Result<UserResponse>, second: Result<UserResponse>)
    requires db.Valid()
    modifies db
    ensures first.Ok? ==> second.Ok? && second.value.(password := first.value.password) == first.value
    ensures first.Ok? && request.password.None? ==> second == first
    ensures first.Ok? && request.password.Some? && Sound(enc) ==>
      enc.matches(request.password.value, second.value.password)
    ensures first.Err? ==> second == first
  {
    first := Update(db, id, request, enc);
    if first.Ok? {
      UpdateIsIdempotent(old(db.users)[id], request, UpdateCheck(old(db.users), old(db.roles), id, request).value, enc);
    }
    second := Update(db, id, request, enc);
  }
}
