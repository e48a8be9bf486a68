/**
 * CustomUserDetails: the security principal built from a user or a worker
 * row, and the authorities derived from its roles.
 */
module UserDetails {
  import opened Entities

  datatype Details = Details(
    id: Id,
    name: string,
    username: string,
    email: string,
    password: string,
    roles: set<Role>,
    deleted: bool,
    workers: Option<set<Id>>,   // null for a worker principal
    status: Option<AccountStatus>)

  /** The ids of the workers a user owns: the user's `workers` relation. */
  function WorkersOf(workers: map<Id, Worker>, userId: Id): (r: set<Id>)
    ensures forall id :: id in r <==> id in workers && workers[id].owner == userId
  {
    set id | id in workers && workers[id].owner == userId
  }

  /** build(User): copies the user's fields; `owned` is the user's workers relation as loaded. */
  function BuildFromUser(u: User, owned: set<Id>): Details {
    Details(u.id, u.name, u.username, u.email, u.password, u.roles, u.deleted, Some(owned), u.status)
  }

  /** build(Worker): copies the worker's fields; a worker owns no workers, so that field is null. */
  function BuildFromWorker(w: Worker): Details {
    Details(w.id, w.name, w.username, w.email, w.password, w.roles, w.deleted, None, w.status)
  }

  /** The details of a principal freshly loaded from the store. */
  function BuildFromPrincipal(p: Principal, workers: map<Id, Worker>): Details {
    match p
    case UserPrincipal(u) => BuildFromUser(u, WorkersOf(workers, u.id))
    case WorkerPrincipal(w) => BuildFromWorker(w)
  }

  function GetUsername(d: Details): string {
    d.username
  }

  function GetPassword(d: Details): string {
    d.password
  }

  /** The names of a set of roles; duplicate names collapse into one. */
  function RoleNames(roles: set<Role>): (r: set<string>)
    ensures forall n :: n in r <==> exists role :: role in roles && role.name == n
  {
    set role | role in roles :: role.name
  }

  /** getAuthorities: one authority per held role's name, whatever the role's active and deleted flags. */
  function GetAuthorities(d: Details): (r: set<string>)
    ensures forall role :: role in d.roles ==> role.name in r
    ensures forall n :: n in r ==> exists role :: role in d.roles && role.name == n
    ensures |r| <= |d.roles|
  {
    RoleNamesAtMostRoles(d.roles);
    RoleNames(d.roles)
  }

  /** Mapping roles to their names never yields more names than roles. */
  lemma {:induction false} RoleNamesAtMostRoles(roles: set<Role>)
    ensures |RoleNames(roles)| <= |roles|
  {
    if roles != {} {
      var x :| x in roles;
      var rest := roles - {x};
      RoleNamesAtMostRoles(rest);
      assert RoleNames(roles) == RoleNames(rest) + {x.name};
    }
  }

  /** Two held roles with the same name give a single authority: strictly fewer authorities than roles. */
  lemma DuplicateNamesCollapse(roles: set<Role>, a: Role, b: Role)
    requires a in roles && b in roles && a != b && a.name == b.name
    ensures |RoleNames(roles)| < |roles|
  {
    var rest := roles - {b};
    RoleNamesAtMostRoles(rest);
    assert RoleNames(roles) == RoleNames(rest);
  }

  /** build(User) keeps every field of the user; the getters return the stored username and password. */
  lemma BuildFromUserCopies(u: User, owned: set<Id>)
    ensures var d := BuildFromUser(u, owned);
      && d.id == u.id && d.name == u.name && d.email == u.email && d.roles == u.roles
      && d.deleted == u.deleted && d.status == u.status && d.workers == Some(owned)
      && GetUsername(d) == u.username && GetPassword(d) == u.password
      && GetAuthorities(d) == RoleNames(u.roles)
  {
  }

  /** build(Worker) keeps every field of the worker and sets the workers relation to null. */
  lemma BuildFromWorkerCopies(w: Worker)
    ensures var d := BuildFromWorker(w);
      && d.id == w.id && d.name == w.name && d.email == w.email && d.roles == w.roles
      && d.deleted == w.deleted && d.status == w.status && d.workers == None
      && GetUsername(d) == w.username && GetPassword(d) == w.password
      && GetAuthorities(d) == RoleNames(w.roles)
  {
  }
}
