/**
 * WorkerUserServiceImpl: a worker's lifecycle (soft-delete to the recycle
 * bin, restore, permanent delete) and the per-owner recycle-bin queries.
 * The caller, whom the source reads from the security context, is an
 * explicit `caller` id; it is the `createdBy` the bin is scoped by.
 */
module WorkerUserService {
  import opened Entities
  import opened Store

  function Min(a: nat, b: nat): nat {
    if a <= b then a else b
  }

  /**
   * workerRepository.findById(id).orElseThrow(...): the stored worker, or
   * NotFound. Each service runs this lookup on its own table.
   */
  function FindById(workers: map<Id, Worker>, id: Id): (r: Result<Worker>)
    ensures r.Ok? <==> id in workers
    ensures r.Ok? ==> r.value == workers[id]
    ensures r.Err? ==> r.error == NotFound
  {
    if id in workers then Ok(workers[id]) else Err(NotFound)
  }

  /** The worker once moved to the recycle bin at time `now`. */
  function SoftDeleted(w: Worker, now: Instant): Worker
    requires w.status.Some?
  {
    w.(deleted := true, deletedOn := Some(now), status := Some(w.status.value.(isActive := false)))
  }

  /** The worker once taken back out of the recycle bin. */
  function Restored(w: Worker): Worker
    requires w.status.Some?
  {
    w.(deleted := false, deletedOn := None, status := Some(w.status.value.(isActive := true)))
  }

  /** The caller's workers in the recycle bin. */
  function RecycleBin(workers: map<Id, Worker>, caller: Id): (r: set<Id>)
    ensures forall id :: id in r <==> id in workers && workers[id].createdBy == caller && workers[id].deleted
  {
    set id | id in workers && workers[id].createdBy == caller && workers[id].deleted
  }

  /** The caller's workers not in the recycle bin. */
  function NotDeletedOf(workers: map<Id, Worker>, caller: Id): (r: set<Id>)
    ensures forall id :: id in r <==> id in workers && workers[id].createdBy == caller && !workers[id].deleted
  {
    set id | id in workers && workers[id].createdBy == caller && !workers[id].deleted
  }

  method SoftDelete(db: Db, id: Id, now: Instant) returns (r: Outcome)
    requires db.Valid()
    modifies db
    ensures db.Valid()
    ensures id !in old(db.workers) ==> r == Fail(NotFound)
    ensures id in old(db.workers) && old(db.workers[id]).deleted ==> r == Fail(AlreadyDeleted)
    ensures id in old(db.workers) && !old(db.workers[id]).deleted && old(db.workers[id]).status.None? ==>
      r == Fail(NullReference)
    ensures r.Fail? ==> unchanged(db)
    ensures r.Pass? ==>
      && id in old(db.workers) && !old(db.workers[id]).deleted && old(db.workers[id]).status.Some?
      && db.State() == old(db.State()).(workers := old(db.workers)[id := SoftDeleted(old(db.workers[id]), now)])
  {
    if id !in db.workers {
      return Fail(NotFound);
    }
    var worker := db.workers[id];
    if worker.deleted {
      return Fail(AlreadyDeleted);
    }
    if worker.status.None? {
      return Fail(NullReference);
    }
    worker := worker.(deleted := true);
    worker := worker.(deletedOn := Some(now));
    var status := worker.status.value.(isActive := false);
    worker := worker.(status := Some(status));
    db.workers := db.workers[id := worker];
    r := Pass;
  }

  method Restore(db: Db, id: Id) returns (r: Outcome)
    requires db.Valid()
    modifies db
    ensures db.Valid()
    ensures id !in old(db.workers) ==> r == Fail(NotFound)
    ensures id in old(db.workers) && !old(db.workers[id]).deleted ==> r == Fail(NotDeleted)
    ensures id in old(db.workers) && old(db.workers[id]).deleted && old(db.workers[id]).status.None? ==>
      r == Fail(NullReference)
    ensures r.Fail? ==> unchanged(db)
    ensures r.Pass? ==>
      && id in old(db.workers) && old(db.workers[id]).deleted && old(db.workers[id]).status.Some?
      && db.State() == old(db.State()).(workers := old(db.workers)[id := Restored(old(db.workers[id]))])
  {
    if id !in db.workers {
      return Fail(NotFound);
    }
    var worker := db.workers[id];
    if !worker.deleted {
      return Fail(NotDeleted);
    }
    if worker.status.None? {
      return Fail(NullReference);
    }
    worker := worker.(deleted := false);
    worker := worker.(deletedOn := None);
    var status := worker.status.value.(isActive := true);
    worker := worker.(status := Some(status));
    db.workers := db.workers[id := worker];
    r := Pass;
  }

  method HardDelete(db: Db, id: Id) returns (r: Outcome)
    requires db.Valid()
    modifies db
    ensures db.Valid()
    ensures id !in old(db.workers) ==> r == Fail(NotFound)
    ensures id in old(db.workers) && !old(db.workers[id]).deleted ==> r == Fail(NotYetSoftDeleted)
    ensures r.Fail? ==> unchanged(db)
    ensures r.Pass? <==> id in old(db.workers) && old(db.workers[id]).deleted
    ensures r.Pass? ==> db.State() == old(db.State()).(workers := old(db.workers) - {id})
  {
    if id !in db.workers {
      return Fail(NotFound);
    }
    if db.workers[id].deleted {
      db.workers := db.workers - {id};
      r := Pass;
    } else {
      r := Fail(NotYetSoftDeleted);
    }
  }

  /** A set has a subset of every size up to its own. */
  lemma {:induction false} SubsetOfSize(s: set<Id>, n: nat) returns (t: set<Id>)
    requires n <= |s|
    ensures t <= s && |t| == n
  {
    if n == 0 {
      t := {};
    } else {
      var x :| x in s;
      var rest := SubsetOfSize(s - {x}, n - 1);
      t := rest + {x};
    }
  }

  /**
   * findByCreatedByAndIsDeletedTrue(caller, page): one page of the caller's
   * recycle bin. The store's order is not modelled, so the page is any
   * `pageSize` of the binned workers (all of them when fewer).
   */
  method RecycleBinPage(workers: map<Id, Worker>, caller: Id, pageSize: nat) returns (page: set<Id>)
    requires pageSize >= 1
    ensures page <= RecycleBin(workers, caller)
    ensures |page| == Min(pageSize, |RecycleBin(workers, caller)|)
    ensures page == {} <==> RecycleBin(workers, caller) == {}
  {
    var bin := RecycleBin(workers, caller);
    var size := Min(pageSize, |bin|);
    ghost var sample := SubsetOfSize(bin, size);
    page :| page <= bin && |page| == size;
  }

  /** getRecycleBin: one page of the caller's soft-deleted workers; an empty bin is an error. */
  method GetRecycleBin(workers: map<Id, Worker>, caller: Id, pageSize: nat) returns (r: Result<map<Id, Worker>>)
    requires pageSize >= 1
    ensures r.Err? <==> RecycleBin(workers, caller) == {}
    ensures r.Err? ==> r.error == Error.EmptyRecycleBin
    ensures r.Ok? ==>
      && r.value.Keys <= RecycleBin(workers, caller)
      && |r.value.Keys| == Min(pageSize, |RecycleBin(workers, caller)|)
      && forall id :: id in r.value ==> r.value[id] == workers[id]
  {
    var page := RecycleBinPage(workers, caller, pageSize);
    if page == {} {
      return Err(Error.EmptyRecycleBin);
    }
    var rows := map id | id in page :: workers[id];
    assert rows.Keys == page;
    r := Ok(rows);
  }

  /** emptyRecycleBin: permanently deletes one page of the caller's recycle bin. */
  method EmptyRecycleBin(db: Db, caller: Id, pageSize: nat) returns (r: Outcome, ghost purged: set<Id>)
    requires db.Valid() && pageSize >= 1
    modifies db
    ensures db.Valid()
    ensures r.Fail? <==> RecycleBin(old(db.workers), caller) == {}
    ensures r.Fail? ==> r.error == Error.EmptyRecycleBin && unchanged(db)
    ensures r.Pass? ==>
      && purged <= RecycleBin(old(db.workers), caller)
      && |purged| == Min(pageSize, |RecycleBin(old(db.workers), caller)|)
      && db.State() == old(db.State()).(workers := old(db.workers) - purged)
  {
    var page := RecycleBinPage(db.workers, caller, pageSize);
    purged := page;
    if page == {} {
      return Fail(Error.EmptyRecycleBin), purged;
    }
    db.workers := db.workers - page;
    r := Pass;
  }

  /** findAllActiveUsers: the caller's workers that are not in the recycle bin. */
  function FindAllActiveUsers(workers: map<Id, Worker>, caller: Id): (r: map<Id, Worker>)
    ensures r.Keys == NotDeletedOf(workers, caller)
    ensures forall id :: id in r ==> r[id] == workers[id] && r[id].createdBy == caller && !r[id].deleted
  {
    map id | id in NotDeletedOf(workers, caller) :: workers[id]
  }

  /** Restoring a soft-deleted worker gives back the worker with cleared flags: roles, names, owner kept. */
  lemma RestoreAfterSoftDelete(w: Worker, now: Instant)
    requires w.status.Some?
    ensures Restored(SoftDeleted(w, now))
      == w.(deleted := false, deletedOn := None, status := Some(w.status.value.(isActive := true)))
    ensures !w.deleted && w.deletedOn.None? && w.status.value.isActive ==> Restored(SoftDeleted(w, now)) == w
  {
  }

  /** Two different owners' recycle bins never share a worker. */
  lemma RecycleBinsAreDisjoint(workers: map<Id, Worker>, a: Id, b: Id)
    requires a != b
    ensures RecycleBin(workers, a) * RecycleBin(workers, b) == {}
  {
  }

  /** The active list and the recycle bin split the caller's workers. */
  lemma ActiveAndBinPartition(workers: map<Id, Worker>, caller: Id)
    ensures NotDeletedOf(workers, caller) * RecycleBin(workers, caller) == {}
    ensures NotDeletedOf(workers, caller) + RecycleBin(workers, caller)
      == set id | id in workers && workers[id].createdBy == caller
  {
  }

  /** Emptying a page of the caller's bin leaves every worker outside that bin as it was. */
  lemma PurgeLeavesOthers(workers: map<Id, Worker>, caller: Id, purged: set<Id>)
    requires purged <= RecycleBin(workers, caller)
    ensures forall id :: id in workers && (workers[id].createdBy != caller || !workers[id].deleted) ==>
      id in workers - purged && (workers - purged)[id] == workers[id]
  {
  }
}
