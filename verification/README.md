# User_Master: accounts, workers, roles and refresh tokens

This project models the account and session core of the User_Master Spring
service. Top-level **users** register, verify their e-mail and log in. Each
user creates **workers**, which live in a per-owner recycle bin once
soft-deleted. **Roles** grant authorities. A **refresh token** (at most one
record per username) is traded for a new access token and rotated.

The database is one object, `Store.Db`. It holds one map per table keyed by
the generated id, plus one id counter per table. The counters stand for the
IDENTITY columns. `Db` also holds an outbox of the mails the services send.

`Db.Valid()` states the table invariants:
- every key is its record's id and lies below its counter;
- usernames and e-mails are unique among users and among workers;
- role names are unique;
- each username has at most one refresh-token record.

Each service operation is a method over `Db`. Its contract says:
- which error it raises, in the source's order of checks;
- that a failure leaves the store unchanged;
- the whole new state on success, as `db.State() == old(db.State()).(…)`.

Read-only queries are functions over the maps, and the lemmas are about those
functions. Exceptions are the `Error` constructors of `Entities.Result`. A
null that the source dereferences is `NullReference`. A null raw password
handed to the password encoder, which BCrypt refuses, is `NullArgument`. A null key column at
save time is `NotNullViolation`. A single-result finder that matches several
rows is `NonUniqueResult`.

Collaborators the model cannot see are parameters:
- the password encoder, `PasswordEncoder` with `encode` and `matches`;
- the JWT provider, `jwt: Details -> string`;
- the random UUIDs (verification code, new token value, generated file id);
- the clock, `now`;
- the logged-in principal.

Files:
- `entities.dfy`: records, requests, responses, errors.
- `store.dfy`: tables, invariants, repository finders.
- `user_details.dfy`: `CustomUserDetails`.
- `file_service.dfy`: `FileServiceImpl`.
- `user_controller.dfy`: `UserController.uploadUserImage`.
- `worker_service.dfy`: `WorkerUserServiceImpl`.
- `home_service.dfy`: `HomeServiceImpl`.
- `refresh_tokens.dfy`: `RefreshTokenServiceImpl`.
- `token_controller.dfy`: `RefreshTokenController`.
- `auth_service.dfy`: `AuthServiceImpl`.
- `user_service.dfy`: `UserServiceImpl`.
- `role_service.dfy`: `RoleServiceImpl`.

Where the source files disagree with each other, the model follows the
service code that runs:
- `RefreshToken.java` declares only a `user` link. The service writes and
  reads a `username`, an `email` and a `worker` link, and the model has all
  four.
- `Worker.java` declares no account status and no `deletedOn`. The worker
  service reads and writes both, and the model has them.
- `JwtResponse.java` has no `worker` field, yet the controller sets one. The
  model's `TokenResponse` carries it.
- `WorkerRepository.findByCreatedByAndIsDeletedFalse` is declared with a
  `Pageable`, but `findAllActiveUsers` calls it with the owner id only. The
  model returns all matching workers.
- `User.java` declares no account status, and its `workers` relation is
  commented out. The services read and write a user's status, and the model's
  `User` carries one. `BaseModel.java`, which `User` extends, is not part of
  this model. A user's workers are derived from each worker's owning user
  (`UserDetails.WorkersOf`).
- `UserResponse.java` declares no `imageName`, yet `uploadUserImage` sets one
  (UserController.java line 220). The model's `UserResponse` carries it.
- `UnlockForm.java` declares no `confirmPassword`, yet `unlockAccount` reads
  one (AuthServiceImpl.java line 82). `AuthService.UnlockAccount` takes it as
  a form field like the others.

## Model

| member | source | states |
|---|---|---|
| Store.Single | src/main/java/com/vijay/User_Master/repository/RefreshTokenRepository.java:13 | a single-result finder sees no row iff nothing matches, several iff more than one matches, otherwise the one matching id |
| Store.UserByEmail | src/main/java/com/vijay/User_Master/service/impl/AuthServiceImpl.java:165 | findByEmail returns a user holding that e-mail, and null only when no user holds it |
| Store.UserByUsername | src/main/java/com/vijay/User_Master/config/security/CustomUserDetailsService.java:21-25 | findByUsername returns a user holding that username, and null only when none does |
| Store.WorkerByEmail | src/main/java/com/vijay/User_Master/repository/WorkerRepository.java:17 | the worker holding that e-mail, or null only when none does |
| Store.RoleByName | src/main/java/com/vijay/User_Master/service/impl/UserServiceImpl.java:66-70 | findByName returns a role with that name, and empty only when no role has it |
| Store.UsersByUsernameOrEmail | src/main/java/com/vijay/User_Master/service/impl/RefreshTokenServiceImpl.java:37 | exactly the users whose username is the first argument or whose e-mail is the second |
| Store.TokenByUsername | src/main/java/com/vijay/User_Master/repository/RefreshTokenRepository.java:18 | the record issued for that username, and empty only when there is none |
| Store.TokensWithValue | src/main/java/com/vijay/User_Master/repository/RefreshTokenRepository.java:13 | exactly the records holding that token value |
| UserDetails.WorkersOf | src/main/java/com/vijay/User_Master/entity/Worker.java:41-43 | exactly the workers whose owning user is the given one |
| UserDetails.RoleNames | src/main/java/com/vijay/User_Master/config/security/CustomUserDetails.java:82-86 | a name is present iff some role in the set carries it |
| UserDetails.GetAuthorities | src/main/java/com/vijay/User_Master/config/security/CustomUserDetails.java:82-86 | every held role's name is an authority, every authority is a held role's name whatever its flags, and there are no more authorities than roles |
| UserDetails.RoleNamesAtMostRoles | src/main/java/com/vijay/User_Master/config/security/CustomUserDetails.java:82-86 | mapping roles to names never yields more names than roles (by induction on the set) |
| UserDetails.DuplicateNamesCollapse | src/main/java/com/vijay/User_Master/config/security/CustomUserDetails.java:82-86 | two distinct held roles with one name give strictly fewer authorities than roles |
| UserDetails.BuildFromUserCopies | src/main/java/com/vijay/User_Master/config/security/CustomUserDetails.java:51-64 | build(User) keeps every field; getUsername, getPassword and getAuthorities answer from the user's username, password and roles |
| UserDetails.BuildFromWorkerCopies | src/main/java/com/vijay/User_Master/config/security/CustomUserDetails.java:66-79 | build(Worker) keeps every field and leaves the workers relation null |
| FileService.LastIndexOf | src/main/java/com/vijay/User_Master/service/impl/FileServiceImpl.java:28 | the position of the last occurrence of the character, or -1 when it does not occur |
| FileService.Extension | src/main/java/com/vijay/User_Master/service/impl/FileServiceImpl.java:28 | the suffix starts with its only '.' and the name is a prefix followed by it |
| FileService.UploadFileName | src/main/java/com/vijay/User_Master/service/impl/FileServiceImpl.java:20-50 | a null name or one without '.' is invalid; a last extension other than .png/.jpg/.jpeg in any case is refused; otherwise the stored name is the generated id followed by the original extension |
| FileService.UpperCaseImageAccepted | src/main/java/com/vijay/User_Master/service/impl/FileServiceImpl.java:29-31 | "photo.PNG" is accepted and keeps its upper-case extension |
| FileService.LastExtensionDecides | src/main/java/com/vijay/User_Master/service/impl/FileServiceImpl.java:28-34 | for any stem, `stem.ext` is accepted iff `.ext` is an accepted image type, refused with FileTypeNotAllowed otherwise, and stored as the generated id plus `.ext`: only the last extension counts |
| FileService.DoubleExtensionRefused | src/main/java/com/vijay/User_Master/service/impl/FileServiceImpl.java:28-33 | "image.png.exe" is refused: only the last extension counts |
| UserController.ActiveRoles | src/main/java/com/vijay/User_Master/controller/UserController.java:207-209 | a held role is kept iff it is active and not deleted |
| UserController.UploadUserImage | src/main/java/com/vijay/User_Master/controller/UserController.java:204-220 | the file name's errors come first, then NotFound for a missing caller; on success the caller's profile with exactly the active roles and the stored image name, every other field as stored |
| UserController.ActiveRolesIdempotent | src/main/java/com/vijay/User_Master/controller/UserController.java:207-209 | filtering the roles twice gives the same set as filtering once |
| UserController.ActiveRolesGrantNoNewAuthority | src/main/java/com/vijay/User_Master/controller/UserController.java:207-209 | the filtered roles carry no authority name the unfiltered ones lacked |
| WorkerUserService.FindById | src/main/java/com/vijay/User_Master/service/impl/WorkerUserServiceImpl.java:41-45 | the stored worker iff the id exists, otherwise NotFound |
| WorkerUserService.RecycleBin | src/main/java/com/vijay/User_Master/repository/WorkerRepository.java:29 | exactly the caller's soft-deleted workers |
| WorkerUserService.NotDeletedOf | src/main/java/com/vijay/User_Master/repository/WorkerRepository.java:26 | exactly the caller's workers not soft-deleted |
| WorkerUserService.SoftDelete | src/main/java/com/vijay/User_Master/service/impl/WorkerUserServiceImpl.java:49-62 | NotFound, then AlreadyDeleted, then a null status; otherwise only that worker changes: deleted, stamped with now, status inactive |
| WorkerUserService.Restore | src/main/java/com/vijay/User_Master/service/impl/WorkerUserServiceImpl.java:66-81 | NotFound, then NotDeleted for a live worker, then a null status; otherwise only that worker changes: not deleted, no stamp, status active |
| WorkerUserService.HardDelete | src/main/java/com/vijay/User_Master/service/impl/WorkerUserServiceImpl.java:85-93 | removes the worker iff it exists and is soft-deleted; NotFound or NotYetSoftDeleted otherwise, with nothing changed |
| WorkerUserService.RecycleBinPage | src/main/java/com/vijay/User_Master/service/impl/WorkerUserServiceImpl.java:133 | a first page is a subset of the caller's bin of size min(pageSize, bin size), empty iff the bin is |
| WorkerUserService.GetRecycleBin | src/main/java/com/vijay/User_Master/service/impl/WorkerUserServiceImpl.java:155-162 | an error iff the caller's bin is empty; otherwise one page of the bin, each worker as stored |
| WorkerUserService.EmptyRecycleBin | src/main/java/com/vijay/User_Master/service/impl/WorkerUserServiceImpl.java:131-140 | an error with nothing changed iff the bin is empty; otherwise exactly one page of the caller's bin is removed and every other table is untouched |
| WorkerUserService.FindAllActiveUsers | src/main/java/com/vijay/User_Master/service/impl/WorkerUserServiceImpl.java:144-150 | exactly the caller's non-deleted workers, each as stored |
| WorkerUserService.RestoreAfterSoftDelete | src/main/java/com/vijay/User_Master/service/impl/WorkerUserServiceImpl.java:55-75 | restore undoes soft delete: a live, active, unstamped worker comes back equal to itself |
| WorkerUserService.RecycleBinsAreDisjoint | src/main/java/com/vijay/User_Master/service/impl/WorkerUserServiceImpl.java:155-162 | two owners' recycle bins share no worker |
| WorkerUserService.ActiveAndBinPartition | src/main/java/com/vijay/User_Master/service/impl/WorkerUserServiceImpl.java:144-162 | the active list and the bin are disjoint and together are all the caller's workers |
| WorkerUserService.PurgeLeavesOthers | src/main/java/com/vijay/User_Master/service/impl/WorkerUserServiceImpl.java:131-140 | emptying the bin keeps every worker outside it exactly as it was |
| HomeService.Verified | src/main/java/com/vijay/User_Master/service/impl/HomeServiceImpl.java:33-35 | the verified user is active with no pending code; everything else, including the reset token, is unchanged |
| HomeService.VerifyAccount | src/main/java/com/vijay/User_Master/service/impl/HomeServiceImpl.java:24-54 | NotFound, then a null status, then AlreadyVerified; Ok(true) iff the code is the pending one, and then the user is verified and the success mail queued; Ok(false) on another code, with nothing changed |
| HomeService.VerificationIsSingleUse | src/main/java/com/vijay/User_Master/service/impl/HomeServiceImpl.java:29-35 | once verified, no code is pending and the account is active |
| HomeService.VerifyTwice | src/main/java/com/vijay/User_Master/service/impl/HomeServiceImpl.java:29-31 | replaying a successful verification link is refused as already verified |
| RefreshTokens.ResolvePrincipal | src/main/java/com/vijay/User_Master/service/impl/RefreshTokenServiceImpl.java:37-46 | several matching users fail as non-unique; the one user matching either key wins; else the worker with that e-mail; NotFound iff there is neither |
| RefreshTokens.IssuedId | src/main/java/com/vijay/User_Master/service/impl/RefreshTokenServiceImpl.java:49-50 | the record of that username when there is one, else a fresh key, and only when no record has that username |
| RefreshTokens.IssueKeepsOneTokenPerUsername | src/main/java/com/vijay/User_Master/service/impl/RefreshTokenServiceImpl.java:49-66 | create-or-rotate keeps at most one record per username |
| RefreshTokens.IssueHoldsFreshValue | src/main/java/com/vijay/User_Master/service/impl/RefreshTokenServiceImpl.java:53-66 | afterwards the username's only record holds the new value and expiry |
| RefreshTokens.IssueLeavesOthers | src/main/java/com/vijay/User_Master/service/impl/RefreshTokenServiceImpl.java:49-66 | only that record changes: a new one has the caller's username and e-mail and no links; a rotated one keeps key, e-mail and links and changes only value and expiry |
| RefreshTokens.RotationRetiresOldValue | src/main/java/com/vijay/User_Master/service/impl/RefreshTokenServiceImpl.java:59-64 | after rotation the old value no longer belongs to that username |
| RefreshTokens.CreateRefreshToken | src/main/java/com/vijay/User_Master/service/impl/RefreshTokenServiceImpl.java:33-68 | fails iff the principal does not resolve, with nothing changed; otherwise the tokens become create-or-rotate of the principal's username, expiring two days after now, and the counter advances only on create |
| RefreshTokens.FindByToken | src/main/java/com/vijay/User_Master/service/impl/RefreshTokenServiceImpl.java:72-83 | NotFound iff no record holds the value, NonUniqueResult iff several do, otherwise that record |
| RefreshTokens.VerifyRefreshToken | src/main/java/com/vijay/User_Master/service/impl/RefreshTokenServiceImpl.java:86-103 | refused iff the expiry is strictly before now, and then the record with that key is deleted; otherwise the token comes back unchanged |
| RefreshTokens.ExpiredTokenIsGone | src/main/java/com/vijay/User_Master/service/impl/RefreshTokenServiceImpl.java:93-96 | after an expired token's deletion, the same value is no longer found |
| RefreshTokens.GetUser | src/main/java/com/vijay/User_Master/service/impl/RefreshTokenServiceImpl.java:106-119 | as written: NotFound for an unknown value, NonUniqueResult for several records; for the one record, a null dereference when it has no user link, otherwise the linked user's profile (NotFound when that row is gone) |
| RefreshTokens.GetWorker | src/main/java/com/vijay/User_Master/service/impl/RefreshTokenServiceImpl.java:122-135 | as written: NotFound for an unknown value, NonUniqueResult for several records; for the one record, a null dereference when it has no worker link, otherwise the linked worker (NotFound when that row is gone) |
| RefreshTokens.LinkedUser | src/main/java/com/vijay/User_Master/controller/RefreshTokenController.java:43-44 | corrected getUser: NotFound, NonUniqueResult and the found profile exactly when getUser gives them; a missing link is an absent user where getUser dereferences null |
| RefreshTokens.LinkedWorker | src/main/java/com/vijay/User_Master/controller/RefreshTokenController.java:43-44 | corrected getWorker: NotFound, NonUniqueResult and the found worker exactly when getWorker gives them; a missing link is an absent worker where getWorker dereferences null |
| RefreshTokens.IdentityOf | src/main/java/com/vijay/User_Master/controller/RefreshTokenController.java:43-44 | the user's username and e-mail when a user is present, else the worker's; neither present is a null dereference |
| RefreshTokens.AsWrittenNeedsBothLinks | src/main/java/com/vijay/User_Master/service/impl/RefreshTokenServiceImpl.java:130-131 | a token linked to a user only passes getUser but fails in getWorker |
| RefreshTokens.CorrectedUserOnlyTokenHasIdentity | src/main/java/com/vijay/User_Master/controller/RefreshTokenController.java:43-44 | with the corrected lookups, a user-only token yields that user's identity |
| RefreshTokens.CorrectedWorkerOnlyTokenHasIdentity | src/main/java/com/vijay/User_Master/controller/RefreshTokenController.java:43-44 | with the corrected lookups, a worker-only token yields that worker's identity |
| RefreshTokens.IssuedRecordHasNoIdentity | src/main/java/com/vijay/User_Master/service/impl/RefreshTokenServiceImpl.java:53-58 | a record created by createRefreshToken has neither link, so even the corrected lookups give no identity for it |
| RefreshTokenController.RegenerateToken | src/main/java/com/vijay/User_Master/controller/RefreshTokenController.java:31-68 | with the corrected LinkedUser/LinkedWorker in place of getUser/getWorker (see Findings): an unknown token changes nothing; an expired one is deleted; each later step that fails (LinkedUser, LinkedWorker, IdentityOf, ResolvePrincipal, in that order) returns its own error and changes nothing; when all of them resolve the exchange succeeds, and the new access token is built from the reloaded principal and the refresh token is rotated for it |
| AuthService.ExistsByUsernameOrEmail | src/main/java/com/vijay/User_Master/service/impl/AuthServiceImpl.java:150-155 | true iff the string is the username or the e-mail of some user or some worker |
| AuthService.KeyTaken | src/main/java/com/vijay/User_Master/service/impl/AuthServiceImpl.java:187 | a request key is taken iff it is present and used as either key by any user or worker |
| AuthService.PendingUser | src/main/java/com/vijay/User_Master/service/impl/AuthServiceImpl.java:191-205 | the registered account holds the request's keys, the encoded password and the one role, with an inactive status carrying the code |
| AuthService.NewWorker | src/main/java/com/vijay/User_Master/service/impl/AuthServiceImpl.java:251-266 | the new worker holds the request's keys, the encoded password and the worker role, is owned and created by the caller, and has no status |
| AuthService.InsertUserKeepsUniqueKeys | src/main/java/com/vijay/User_Master/entity/User.java:27-30 | adding a user whose keys are free keeps the user table's unique keys |
| AuthService.InsertWorkerKeepsUniqueKeys | src/main/java/com/vijay/User_Master/entity/Worker.java:25-28 | adding a worker whose keys are free keeps the worker table's unique keys |
| AuthService.RegisterForAdminUser | src/main/java/com/vijay/User_Master/service/impl/AuthServiceImpl.java:184-241 | AlreadyExists, then RoleNotFound, then NullArgument for a null password (the encoder refuses it), then NotNullViolation for a null key, each with nothing changed; otherwise the pending user is saved, and then a null name fails the verification mail (NullReference, no mail) while a present name queues the link for its id and code |
| AuthService.RegisterForNormalUser | src/main/java/com/vijay/User_Master/service/impl/AuthServiceImpl.java:244-269 | AlreadyExists, then NotFound for a missing caller, then NullArgument for a null password, then RoleNotFound, then NotNullViolation for a null key, each with nothing changed; otherwise exactly the new worker owned by the caller is added |
| AuthService.RegisterTwice | src/main/java/com/vijay/User_Master/service/impl/AuthServiceImpl.java:187-207 | once a registration has saved the account, even when its mail then failed, the same request is refused as AlreadyExists |
| AuthService.Authenticate | src/main/java/com/vijay/User_Master/config/security/CustomUserDetailsService.java:20-27 | the user with that username whose hash matches the password, or nothing when no such user matches |
| AuthService.Login | src/main/java/com/vijay/User_Master/service/impl/AuthServiceImpl.java:158-180 | BadCredentials iff authentication fails; then a missing e-mail holder or status is a null dereference and an inactive one AccountInactive; an active one gets the token issued for the authenticated principal's details |
| AuthService.LoginNeedsUsernameAndEmail | src/main/java/com/vijay/User_Master/service/impl/AuthServiceImpl.java:159-166 | a login succeeds only for an identifier that is some user's username and some user's e-mail |
| AuthService.PendingUserCannotLogIn | src/main/java/com/vijay/User_Master/service/impl/AuthServiceImpl.java:158-169 | a freshly registered account whose username is its e-mail, with the right password, is refused as AccountInactive |
| AuthService.VerifiedUserCanLogIn | src/main/java/com/vijay/User_Master/service/impl/AuthServiceImpl.java:158-180 | the same account logs in once its e-mail is verified |
| AuthService.UnlockAccount | src/main/java/com/vijay/User_Master/service/impl/AuthServiceImpl.java:71-103 | NotFound or NonUniqueResult for the identifier, then NullArgument for a null temporary password, IncorrectPassword, NullReference for a null new password, then PasswordMismatch (a null confirmation differs); each failure changes nothing; otherwise the new password is stored encoded, the status becomes bare active, and the unlock mail is queued |
| AuthService.ForgotPassword | src/main/java/com/vijay/User_Master/service/impl/AuthServiceImpl.java:106-125 | NotFound or NonUniqueResult, then NullReference iff the new password is null, then PasswordMismatch iff it differs from a possibly null confirmation; otherwise only the password changes, to the new one encoded |
| AuthService.ChangePassword | src/main/java/com/vijay/User_Master/service/impl/AuthServiceImpl.java:129-147 | a caller e-mail with no user is a null dereference; a null old password is NullArgument; IncorrectPassword iff a present old password does not match; a null new password is then NullArgument; otherwise only the password changes, to the new one encoded |
| AuthService.NewPasswordAuthenticates | src/main/java/com/vijay/User_Master/service/impl/AuthServiceImpl.java:142-145 | with a sound encoder, a stored new password authenticates the user's username |
| UserService.NewUser | src/main/java/com/vijay/User_Master/service/impl/UserServiceImpl.java:60-73 | the created user holds the request's keys, the encoded password and the one role, is active, and has no status |
| UserService.Create | src/main/java/com/vijay/User_Master/service/impl/UserServiceImpl.java:42-84 | UsernameTaken, then EmailTaken (users only), then NullArgument for a null password, then RoleNotFound, then NotNullViolation for a null key, each with nothing changed; otherwise exactly the new user is added |
| UserService.GetById | src/main/java/com/vijay/User_Master/service/impl/UserServiceImpl.java:87-96 | the stored user's profile iff the id exists, otherwise NotFound |
| UserService.RolesNamed | src/main/java/com/vijay/User_Master/service/impl/UserServiceImpl.java:129-133 | succeeds iff every name names a role; then exactly the stored roles carrying those names |
| UserService.ApplyUpdate | src/main/java/com/vijay/User_Master/service/impl/UserServiceImpl.java:115-139 | a provided username, e-mail or password (encoded) replaces the stored one, a provided non-empty role list replaces the roles; an absent field keeps its stored value; name, flags and status never change |
| UserService.UpdateIsIdempotent | src/main/java/com/vijay/User_Master/service/impl/UserServiceImpl.java:115-139 | applying the same update twice equals applying it once, up to the hash of a provided password, which still matches it under a sound encoder |
| UserService.ReplaceUserKeepsUniqueKeys | src/main/java/com/vijay/User_Master/service/impl/UserServiceImpl.java:115-127 | replacing a user by one whose keys are its own or free keeps the unique keys |
| UserService.UpdateCheck | src/main/java/com/vijay/User_Master/service/impl/UserServiceImpl.java:111-133 | NotFound, then UsernameTaken for another user's username, then EmailTaken, then RoleNotFound; otherwise the roles named by a non-empty list |
| UserService.Update | src/main/java/com/vijay/User_Master/service/impl/UserServiceImpl.java:109-145 | fails exactly as the checks do, changing nothing; otherwise only that user changes, to the request applied to it |
| UserService.UpdateTwice | src/main/java/com/vijay/User_Master/service/impl/UserServiceImpl.java:109-145 | repeating a successful update succeeds with the same profile, up to the new hash of a provided password, which matches it; a failed update fails the same way again |
| RoleService.Create | src/main/java/com/vijay/User_Master/service/impl/RoleServiceImpl.java:29-36 | a null name violates NOT NULL and a used name the unique constraint; otherwise exactly one active, non-deleted role is added |
| RoleService.GetById | src/main/java/com/vijay/User_Master/service/impl/RoleServiceImpl.java:40-58 | the stored role iff the id exists, otherwise NotFound |
| RoleService.Update | src/main/java/com/vijay/User_Master/service/impl/RoleServiceImpl.java:82-107 | NotFound, then DuplicateKey for another role's name; otherwise only the name changes, and only when given |
| RoleService.Delete | src/main/java/com/vijay/User_Master/service/impl/RoleServiceImpl.java:111-131 | NotFound for an unknown id; otherwise removes exactly that role and answers true. Unlike the source, this includes a role a user still holds (see Left out) |
| RoleService.RenameKeepsUniqueNames | src/main/java/com/vijay/User_Master/entity/Role.java:31-32 | renaming to a free name keeps role names unique, and the new name finds the role |
| RoleService.CreateThenFind | src/main/java/com/vijay/User_Master/service/impl/RoleServiceImpl.java:29-58 | a created role is found by its id and by its name |

## Left out

- Mail, file writing and logging. A sent mail is a `Notice` appended to the outbox, holding its recipient and the parts the text is built from. The HTML text is left out. Writing the image to disk is left out, and so is `emailSendForRegisterUser`'s wrapping of mail failures.
- Concurrency. The `CompletableFuture` wrappers are left out: every operation runs to completion alone.
- Security context and auditing. The logged-in principal is an explicit argument: the caller id, username or e-mail. So is the auditor that fills `createdBy`. The `UserRepository` and `RoleRepository` interfaces are not part of this model. Their finders are modelled from their call sites.
- `loadUserByUsernameOrEmail` is not part of this model. Its principal is resolved the same way as `createRefreshToken` resolves its own, by `ResolvePrincipal`. Setting the security context in `regenerateToken` is left out.
- Login authenticates through `CustomUserDetailsService.loadUserByUsername`, which looks up users by username only, and then checks the status of the user whose e-mail is the identifier. So, as modelled, a login succeeds only when the identifier is both some user's username and some user's e-mail (`AuthService.LoginNeedsUsernameAndEmail`). Worker login and login by e-mail depend on that missing class, so they are left out.
- Pagination and order. Only the first page is modelled, as some `pageSize` workers of the bin with `pageSize >= 1`. Sort order and later page numbers are left out.
- ModelMapper. Mapping a request to an entity copies the fields of the same name. A null name stays null in the source; the model stores the empty string in its place, and `AuthService.RegisterForAdminUser` models the one place that dereferences it. The `roles` of a registration request are ignored: registration assigns one role.
- PasswordEncoder: `encode` is a function of the plain text, so two calls with the same password give the same hash. BCrypt salts every call. No contract compares the hashes of two calls; `UserService.UpdateIsIdempotent` and `UserService.UpdateTwice` compare profiles up to the password and promise only that the new hash matches.
- `AccountStatus.isActive` is a nullable `Boolean` in the source and a `bool` here, so a status whose flag is null (never written by the modelled code) is not represented.
- `CustomUserDetails` also carries a phone number, `phoNo`. No modelled operation reads it, so `Details` leaves it out.
- Mapping a profile back into a `UserRequest`, and the `update` call that `uploadUserImage` makes with it (UserController.java line 223 onward), are left out. The model ends with the profile that call would send.
- The `WorkerResponse`, `RoleRequest` and `RoleResponse` classes are not part of this model. The worker record stands in for `WorkerResponse`. A role request is its optional name. `UserResponse` carries only the fields the services set.
- Roles held by users and principals are value copies. `Role` rows are not shared references, so renaming or deleting a role does not rewrite copies already held.
- A user or worker link to a row that no longer exists counts as NotFound. The source would have failed inside JPA.
- The `findAll`, search, sorting, `copy` and `delete` methods of the worker and user services are left out. So are the controllers' HTTP wrapping and the `RoleController` endpoints. None of them is a core operation.
- RoleService.Delete: the `users_roles` join rows are not modelled. In the source a role still held by a user cannot be deleted: the join row references it, `Role.users` is the inverse side and removes no join rows, and the database's foreign key refuses the delete. The model deletes such a role and answers true.
- WorkerUserService.RecycleBinPage: states which subset sizes are possible, not which workers are on the page, because the store's order is not modelled.
- FileService.EqualsIgnoreCase: folds only ASCII letters. Java's full Unicode case folding is not modelled; for the ASCII extensions accepted here the two agree.
- `Instant` is an integer number of seconds. Time zones, `LocalDateTime` and clock precision are left out.
- Refresh tokens are never linked to a user or worker. `createRefreshToken` builds records without either link (RefreshTokenServiceImpl.java lines 53-58), and nothing else in the source sets them. So `regenerateToken` fails with a null dereference even with the corrected lookups; `RefreshTokens.IssuedRecordHasNoIdentity` states this. The missing link is modelled as the code behaves, because no code in the source that links a token to its owner is part of this model.

## Findings

| source | as written | input that shows it | evidently intended | confidence | as-written member | corrected member |
|---|---|---|---|---|---|---|
| src/main/java/com/vijay/User_Master/service/impl/RefreshTokenServiceImpl.java:106-135 | `getUser` and `getWorker` dereference the token's user or worker link without a null test. `regenerateToken` calls both, so it fails for every token not linked to both a user and a worker. | a token whose record has a user link and no worker link: `getWorker` dereferences null | the null tests on `user` in RefreshTokenController.java lines 43-44 show that a missing user or worker is meant to be an absent one: each lookup answers null and the identity comes from whichever is present | not executed | RefreshTokens.AsWrittenNeedsBothLinks | RefreshTokens.CorrectedUserOnlyTokenHasIdentity |
