/**
 * Records of the user/role/worker administration backend: the rows of its
 * tables, the request and response shapes the services exchange, the error
 * kinds they raise, and the collaborators they call (password encoder, JWT
 * provider, notifier) as plain values.
 */
module Entities {

  type Id = nat

  /** Seconds since the epoch. */
  type Instant = int

  datatype Option<+T> = None | Some(value: T)

  /** The exceptions the services throw, one constructor per kind. */
  datatype Error =
    | NotFound            // ResourceNotFoundException, or a lookup that found no row
    | NonUniqueResult     // a single-result finder matched several rows
    | NullReference       // a field the code dereferences is null
    | NullArgument        // the password encoder refuses a null raw password
    | DuplicateKey        // the database's unique constraint rejects the save
    | NotNullViolation    // a NOT NULL column is null at save
    | AlreadyDeleted      // softDelete of a worker already in the recycle bin
    | NotDeleted          // restore of a worker that is not in the recycle bin
    | NotYetSoftDeleted   // hardDelete of a worker that is not in the recycle bin
    | EmptyRecycleBin     // no deleted workers for the caller
    | AlreadyVerified     // no verification code pending
    | TokenExpired        // refresh token past its expiry
    | AlreadyExists       // "Username or email is already taken"
    | UsernameTaken       // "Username is already taken"
    | EmailTaken          // "Email is already in use"
    | BadCredentials      // authentication manager refused the credentials
    | AccountInactive     // "Account is not active"
    | IncorrectPassword   // temporary or old password does not match
    | PasswordMismatch    // new and confirm passwords differ
    | RoleNotFound        // no role row with the requested name
    | InvalidFile         // upload without a file name or without an extension
    | FileTypeNotAllowed  // upload whose extension is not an accepted image type

  datatype Result<+T> = Ok(value: T) | Err(error: Error)

  /** Outcome of an operation that returns nothing (a Java `void`). */
  datatype Outcome = Pass | Fail(error: Error)

  datatype Role = Role(id: Id, name: string, active: bool, deleted: bool)

  datatype AccountStatus = AccountStatus(
    isActive: bool,
    verificationCode: Option<string>,
    passwordResetToken: Option<string>)

  /**
   * A top-level account. `active` is the entity's own flag (set by
   * UserService.create); `status` is the separate account status that
   * verification, unlock and login work with, null when never set.
   */
  datatype User = User(
    id: Id,
    name: string,
    username: string,
    email: string,
    password: string,
    roles: set<Role>,
    active: bool,
    deleted: bool,
    status: Option<AccountStatus>)

  /**
   * An account owned by a user: `owner` is the linked user, `createdBy` the
   * auditor's id of the caller that saved it; the recycle bin is scoped by
   * `createdBy`.
   */
  datatype Worker = Worker(
    id: Id,
    name: string,
    username: string,
    email: string,
    password: string,
    roles: set<Role>,
    active: bool,
    deleted: bool,
    status: Option<AccountStatus>,
    deletedOn: Option<Instant>,
    owner: Id,
    createdBy: Id)

  /** The two kinds of principal a login name can resolve to. */
  datatype Principal = UserPrincipal(user: User) | WorkerPrincipal(worker: Worker)
  {
    function Username(): string {
      match this
      case UserPrincipal(u) => u.username
      case WorkerPrincipal(w) => w.username
    }
    function Email(): string {
      match this
      case UserPrincipal(u) => u.email
      case WorkerPrincipal(w) => w.email
    }
  }

  /**
   * A persisted refresh token: its opaque value, its expiry and the identity
   * (username, email) it was issued for, with optional links to the user or
   * worker row it belongs to.
   */
  datatype RefreshToken = RefreshToken(
    id: Id,
    token: string,
    expiry: Instant,
    username: string,
    email: string,
    user: Option<Id>,
    worker: Option<Id>)

  /** What the token service hands out and accepts: id, value, expiry. */
  datatype TokenDto = TokenDto(id: Id, token: string, expiry: Instant)

  function ToDto(t: RefreshToken): TokenDto {
    TokenDto(t.id, t.token, t.expiry)
  }

  /** The request body of user creation, update and registration; every field may be null. */
  datatype UserRequest = UserRequest(
    name: Option<string>,
    username: Option<string>,
    email: Option<string>,
    password: Option<string>,
    roles: Option<set<string>>)

  /** The user profile handed back to clients. */
  datatype UserResponse = UserResponse(
    id: Id,
    name: string,
    username: string,
    email: string,
    password: string,
    roles: set<Role>,
    active: bool,
    deleted: bool,
    imageName: Option<string>)

  function ToResponse(u: User): UserResponse {
    UserResponse(u.id, u.name, u.username, u.email, u.password, u.roles, u.active, u.deleted, None)
  }

  /** Outbound e-mail intents; delivery belongs to the notifier. */
  datatype Notice =
    | VerificationLink(to: string, userId: Id, code: string)
    | VerificationSucceeded(to: string, name: string)
    | AccountUnlocked(to: string)

  /**
   * The password encoder: `encode` hashes a plain text, `matches(raw, hash)`
   * checks one. A salting encoder gives a new hash on every call, while
   * `encode` here is a function of the plain text; so no contract relates
   * the hashes two separate calls store, only that each matches.
   */
  datatype PasswordEncoder = PasswordEncoder(
    encode: string -> string,
    matches: (string, string) -> bool)

  /** A sound encoder: every encoded password matches its plain text. */
  ghost predicate Sound(enc: PasswordEncoder) {
    forall raw :: enc.matches(raw, enc.encode(raw))
  }
}
