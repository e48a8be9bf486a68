/**
 * The data store behind the services: one table per entity, keyed by the
 * generated id, the unique constraints the entities declare, the finders the
 * repositories offer, and the outbox of the notifier.
 */
module Store {
  import opened Entities

  /** What a single-result finder sees: no row, exactly one, or several (which Spring Data rejects). */
  datatype Lookup = NoRow | OneRow(id: Id) | ManyRows

  lemma SingletonMembersEqual(ids: set<Id>)
    requires |ids| == 1
    ensures forall a, b :: a in ids && b in ids ==> a == b
  {
    forall a, b | a in ids && b in ids
      ensures a == b
    {
      assert |ids - {a}| == 0;
      assert ids - {a} == {};
      assert b !in ids - {a};
    }
  }

  /** The row a single-result finder returns for the set of matching ids. */
  function Single(ids: set<Id>): (r: Lookup)
    ensures r == NoRow <==> ids == {}
    ensures r == ManyRows <==> |ids| > 1
    ensures r.OneRow? ==> ids == {r.id}
  {
    if ids == {} then NoRow
    else if |ids| > 1 then ManyRows
    else
      SingletonMembersEqual(ids);
      var id :| id in ids;
      OneRow(id)
  }

  // ---------------------------------------------------------------------
  // Unique constraints declared by the entities (username, email, role name)
  // and the invariant of the refresh-token table.
  // ---------------------------------------------------------------------

  ghost predicate UniqueUserKeys(users: map<Id, User>) {
    forall a, b :: a in users && b in users && a != b ==>
      users[a].username != users[b].username && users[a].email != users[b].email
  }

  ghost predicate UniqueWorkerKeys(workers: map<Id, Worker>) {
    forall a, b :: a in workers && b in workers && a != b ==>
      workers[a].username != workers[b].username && workers[a].email != workers[b].email
  }

  ghost predicate UniqueRoleNames(roles: map<Id, Role>) {
    forall a, b :: a in roles && b in roles && a != b ==> roles[a].name != roles[b].name
  }

  /** At most one refresh-token record per username. */
  ghost predicate OneTokenPerUsername(tokens: map<Id, RefreshToken>) {
    forall a, b :: a in tokens && b in tokens && a != b ==> tokens[a].username != tokens[b].username
  }

  // ---------------------------------------------------------------------
  // Repository queries.
  // ---------------------------------------------------------------------

  /** UserRepository.existsByUsername */
  predicate UserUsernameTaken(users: map<Id, User>, s: string) {
    exists id :: id in users && users[id].username == s
  }

  /** UserRepository.existsByEmail */
  predicate UserEmailTaken(users: map<Id, User>, s: string) {
    exists id :: id in users && users[id].email == s
  }

  /** WorkerRepository.existsByUsername */
  predicate WorkerUsernameTaken(workers: map<Id, Worker>, s: string) {
    exists id :: id in workers && workers[id].username == s
  }

  /** WorkerRepository.existsByEmail */
  predicate WorkerEmailTaken(workers: map<Id, Worker>, s: string) {
    exists id :: id in workers && workers[id].email == s
  }

  /** UserRepository.findByEmail: the unique user with that e-mail, if any. */
  function UserByEmail(users: map<Id, User>, email: string): (r: Option<Id>)
    requires UniqueUserKeys(users)
    ensures r.Some? ==> r.value in users && users[r.value].email == email
    ensures r.None? ==> !UserEmailTaken(users, email)
  {
    if UserEmailTaken(users, email) then
      var id :| id in users && users[id].email == email;
      Some(id)
    else None
  }

  /** UserRepository.findByUsername: the unique user with that username, if any. */
  function UserByUsername(users: map<Id, User>, username: string): (r: Option<Id>)
    requires UniqueUserKeys(users)
    ensures r.Some? ==> r.value in users && users[r.value].username == username
    ensures r.None? ==> !UserUsernameTaken(users, username)
  {
    if UserUsernameTaken(users, username) then
      var id :| id in users && users[id].username == username;
      Some(id)
    else None
  }

  /** WorkerRepository.findByEmail: the unique worker with that e-mail, or null. */
  function WorkerByEmail(workers: map<Id, Worker>, email: string): (r: Option<Id>)
    requires UniqueWorkerKeys(workers)
    ensures r.Some? ==> r.value in workers && workers[r.value].email == email
    ensures r.None? ==> !WorkerEmailTaken(workers, email)
  {
    if WorkerEmailTaken(workers, email) then
      var id :| id in workers && workers[id].email == email;
      Some(id)
    else None
  }

  /** RoleRepository.findByName */
  function RoleByName(roles: map<Id, Role>, name: string): (r: Option<Id>)
    requires UniqueRoleNames(roles)
    ensures r.Some? ==> r.value in roles && roles[r.value].name == name
    ensures r.None? ==> forall id :: id in roles ==> roles[id].name != name
  {
    if exists id :: id in roles && roles[id].name == name then
      var id :| id in roles && roles[id].name == name;
      Some(id)
    else None
  }

  /** UserRepository.findByUsernameOrEmail(username, email): the users matching either key. */
  function UsersByUsernameOrEmail(users: map<Id, User>, username: string, email: string): (r: set<Id>)
    ensures forall id :: id in r <==> id in users && (users[id].username == username || users[id].email == email)
  {
    set id | id in users && (users[id].username == username || users[id].email == email)
  }

  /** RefreshTokenRepository.findByUsername: the token record issued for that username, if any. */
  function TokenByUsername(tokens: map<Id, RefreshToken>, username: string): (r: Option<Id>)
    requires OneTokenPerUsername(tokens)
    ensures r.Some? ==> r.value in tokens && tokens[r.value].username == username
    ensures r.None? ==> forall id :: id in tokens ==> tokens[id].username != username
  {
    if exists id :: id in tokens && tokens[id].username == username then
      var id :| id in tokens && tokens[id].username == username;
      Some(id)
    else None
  }

  /** RefreshTokenRepository.findByToken: the records holding that opaque value. */
  function TokensWithValue(tokens: map<Id, RefreshToken>, value: string): (r: set<Id>)
    ensures forall id :: id in r <==> id in tokens && tokens[id].token == value
  {
    set id | id in tokens && tokens[id].token == value
  }

  /** Every column of the store at one moment, so that a contract can say what an operation leaves alone. */
  datatype Tables = Tables(
    users: map<Id, User>,
    workers: map<Id, Worker>,
    roles: map<Id, Role>,
    tokens: map<Id, RefreshToken>,
    outbox: seq<Notice>,
    nextUserId: Id,
    nextWorkerId: Id,
    nextRoleId: Id,
    nextTokenId: Id)

  /**
   * The database. The `next…Id` counters play the IDENTITY columns: every
   * stored key is below its table's counter, so the counter is a fresh key.
   */
  class Db {
    var users: map<Id, User>
    var workers: map<Id, Worker>
    var roles: map<Id, Role>
    var tokens: map<Id, RefreshToken>
    var outbox: seq<Notice>
    var nextUserId: Id
    var nextWorkerId: Id
    var nextRoleId: Id
    var nextTokenId: Id

    ghost predicate Valid()
      reads this
    {
      && (forall id :: id in users ==> users[id].id == id && id < nextUserId)
      && (forall id :: id in workers ==> workers[id].id == id && id < nextWorkerId)
      && (forall id :: id in roles ==> roles[id].id == id && id < nextRoleId)
      && (forall id :: id in tokens ==> tokens[id].id == id && id < nextTokenId)
      && UniqueUserKeys(users)
      && UniqueWorkerKeys(workers)
      && UniqueRoleNames(roles)
      && OneTokenPerUsername(tokens)
    }

    ghost function State(): Tables
      reads this
    {
      Tables(users, workers, roles, tokens, outbox, nextUserId, nextWorkerId, nextRoleId, nextTokenId)
    }

    constructor ()
      ensures Valid()
      ensures State() == Tables(map[], map[], map[], map[], [], 1, 1, 1, 1)
    {
      users, workers, roles, tokens := map[], map[], map[], map[];
      outbox := [];
      nextUserId, nextWorkerId, nextRoleId, nextTokenId := 1, 1, 1, 1;
    }
  }
}
