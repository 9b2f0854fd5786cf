/**
 * The expiry sweep: select the completed records whose expiry lies strictly
 * before now, and for each delete its file (when it has one that exists)
 * and then the record. A record whose file removal throws is logged and
 * skipped; the sweep goes on with the rest.
 */
module CleanupExpiredExports {
  import opened ExportJobModel
  import Storage

  /** `{ expiresAt: { $lt: now }, status: 'completed' }`; a missing expiry never matches. */
  predicate Expired(r: ExportJob, now: int) {
    r.status == Completed && r.expiresAt.Some? && r.expiresAt.value < now
  }

  /** The records the sweep's query returns, in collection order. */
  function ExpiredSelection(rs: seq<ExportJob>, now: int): (sel: seq<ExportJob>)
    ensures forall x :: x in sel <==> x in rs && Expired(x, now)
    ensures |sel| <= |rs|
  {
    if rs == [] then []
    else (if Expired(rs[0], now) then [rs[0]] else []) + ExpiredSelection(rs[1..], now)
  }

  /** `job.filePath && fs.existsSync(job.filePath)`: an empty path is falsy. */
  predicate HasFile(r: ExportJob, existing: set<string>) {
    r.filePath.Some? && r.filePath.value != "" && r.filePath.value in existing
  }

  /** The record's file exists and cannot be removed, so its record is kept. */
  predicate UnlinkFails(r: ExportJob, existing: set<string>, undeletable: set<string>) {
    HasFile(r, existing) && r.filePath.value in undeletable
  }

  /** The collection after processing the records of `sel` in order (files as they were before the sweep). */
  function SweptRecords(rs: seq<ExportJob>, sel: seq<ExportJob>, existing: set<string>, undeletable: set<string>): seq<ExportJob>
    decreases |sel|
  {
    if sel == [] then rs
    else
      var before := SweptRecords(rs, sel[..|sel| - 1], existing, undeletable);
      var job := sel[|sel| - 1];
      if UnlinkFails(job, existing, undeletable) then before else DeleteFirst(before, job.jobId)
  }

  /** The path the sweep removes when it processes `job`, if any. */
  function PathRemovedBy(job: ExportJob, existing: set<string>, undeletable: set<string>): set<string> {
    if HasFile(job, existing) && job.filePath.value !in undeletable then {job.filePath.value} else {}
  }

  /** The paths the sweep removes while processing `sel`. */
  function SweptPaths(sel: seq<ExportJob>, existing: set<string>, undeletable: set<string>): set<string>
    decreases |sel|
  {
    if sel == [] then {}
    else
      SweptPaths(sel[..|sel| - 1], existing, undeletable) + PathRemovedBy(sel[|sel| - 1], existing, undeletable)
  }

  /** Whether some record of `sel` with this job id was processed without error. */
  predicate DeletedBy(sel: seq<ExportJob>, jobId: string, existing: set<string>, undeletable: set<string>) {
    exists k :: 0 <= k < |sel| && sel[k].jobId == jobId && !UnlinkFails(sel[k], existing, undeletable)
  }

  /** A record of `sel` processed without error is the last one or one of the earlier ones. */
  lemma DeletedByLast(sel: seq<ExportJob>, jobId: string, existing: set<string>, undeletable: set<string>)
    requires sel != []
    ensures DeletedBy(sel, jobId, existing, undeletable) <==>
      || DeletedBy(sel[..|sel| - 1], jobId, existing, undeletable)
      || (sel[|sel| - 1].jobId == jobId && !UnlinkFails(sel[|sel| - 1], existing, undeletable))
  {
    var init := sel[..|sel| - 1];
    if DeletedBy(sel, jobId, existing, undeletable) {
      var k :| 0 <= k < |sel| && sel[k].jobId == jobId && !UnlinkFails(sel[k], existing, undeletable);
      if k < |sel| - 1 {
        assert init[k] == sel[k];
      }
    }
    if DeletedBy(init, jobId, existing, undeletable) {
      var k :| 0 <= k < |init| && init[k].jobId == jobId && !UnlinkFails(init[k], existing, undeletable);
      assert sel[k] == init[k];
    }
  }

  /** Processing `sel` keeps the collection valid and removes exactly the records it processed without error. */
  lemma {:induction false} SweptRecordsMembers(rs: seq<ExportJob>, sel: seq<ExportJob>, existing: set<string>, undeletable: set<string>)
    requires ValidStore(rs)
    ensures ValidStore(SweptRecords(rs, sel, existing, undeletable))
    ensures forall x: ExportJob :: x in SweptRecords(rs, sel, existing, undeletable) <==>
      x in rs && !DeletedBy(sel, x.jobId, existing, undeletable)
    decreases |sel|
  {
    if sel != [] {
      var init := sel[..|sel| - 1];
      var job := sel[|sel| - 1];
      SweptRecordsMembers(rs, init, existing, undeletable);
      var before := SweptRecords(rs, init, existing, undeletable);
      if !UnlinkFails(job, existing, undeletable) {
        DeletePreservesValid(before, job.jobId);
      }
      forall x: ExportJob
        ensures x in SweptRecords(rs, sel, existing, undeletable) <==> x in rs && !DeletedBy(sel, x.jobId, existing, undeletable)
      {
        DeletedByLast(sel, x.jobId, existing, undeletable);
      }
    }
  }

  /**
   * The sweep's effect on the collection: a record is removed exactly when it
   * is expired and its file removal did not throw; all others (pending,
   * failed, unexpired, expiring exactly now) stay.
   */
  lemma SweepOutcome(rs: seq<ExportJob>, now: int, existing: set<string>, undeletable: set<string>)
    requires ValidStore(rs)
    ensures ValidStore(SweptRecords(rs, ExpiredSelection(rs, now), existing, undeletable))
    ensures forall x: ExportJob :: x in SweptRecords(rs, ExpiredSelection(rs, now), existing, undeletable) <==>
      x in rs && !(Expired(x, now) && !UnlinkFails(x, existing, undeletable))
  {
    var sel := ExpiredSelection(rs, now);
    SweptRecordsMembers(rs, sel, existing, undeletable);
    forall x: ExportJob | x in rs
      ensures DeletedBy(sel, x.jobId, existing, undeletable) <==> Expired(x, now) && !UnlinkFails(x, existing, undeletable)
    {
      if DeletedBy(sel, x.jobId, existing, undeletable) {
        var k :| 0 <= k < |sel| && sel[k].jobId == x.jobId && !UnlinkFails(sel[k], existing, undeletable);
        assert sel[k] in sel;
        var a :| 0 <= a < |rs| && rs[a] == sel[k];
        var b :| 0 <= b < |rs| && rs[b] == x;
        assert a == b;
      }
      if Expired(x, now) && !UnlinkFails(x, existing, undeletable) {
        assert x in sel;
        var k :| 0 <= k < |sel| && sel[k] == x;
      }
    }
  }

  /**
   * Run again with the same `now`, the sweep selects only records whose file
   * removal threw the first time; after a sweep without errors it selects
   * nothing, so it deletes no record and no file.
   */
  lemma SecondSweepSelectsOnlyFailures(rs: seq<ExportJob>, now: int, existing: set<string>, undeletable: set<string>)
    requires ValidStore(rs)
    ensures forall x :: x in ExpiredSelection(SweptRecords(rs, ExpiredSelection(rs, now), existing, undeletable), now) ==>
      UnlinkFails(x, existing, undeletable)
    ensures (forall x :: x in ExpiredSelection(rs, now) ==> !UnlinkFails(x, existing, undeletable)) ==>
      ExpiredSelection(SweptRecords(rs, ExpiredSelection(rs, now), existing, undeletable), now) == []
  {
    SweepOutcome(rs, now, existing, undeletable);
    var second := ExpiredSelection(SweptRecords(rs, ExpiredSelection(rs, now), existing, undeletable), now);
    if second != [] {
      assert second[0] in second;
    }
  }

  /** The sweep only removes paths that existed and could be removed. */
  lemma {:induction false} SweptPathsBounds(sel: seq<ExportJob>, existing: set<string>, undeletable: set<string>)
    ensures forall p :: p in SweptPaths(sel, existing, undeletable) ==> p in existing && p !in undeletable
    decreases |sel|
  {
    if sel != [] {
      SweptPathsBounds(sel[..|sel| - 1], existing, undeletable);
    }
  }

  /** Whether processing some record of `sel` removes the file at `p`. */
  predicate RemovesPath(sel: seq<ExportJob>, p: string, existing: set<string>, undeletable: set<string>) {
    exists k :: 0 <= k < |sel| && HasFile(sel[k], existing) && sel[k].filePath.value == p && p !in undeletable
  }

  /**
   * The sweep removes exactly the existing, deletable files of the records it
   * processes: a path is removed iff it is the set `filePath` of one of them.
   */
  lemma {:induction false} SweptPathsExact(sel: seq<ExportJob>, existing: set<string>, undeletable: set<string>)
    ensures forall p :: p in SweptPaths(sel, existing, undeletable) <==> RemovesPath(sel, p, existing, undeletable)
    decreases |sel|
  {
    if sel != [] {
      var init := sel[..|sel| - 1];
      var job := sel[|sel| - 1];
      SweptPathsExact(init, existing, undeletable);
      forall p
        ensures p in SweptPaths(sel, existing, undeletable) <==> RemovesPath(sel, p, existing, undeletable)
      {
        if RemovesPath(sel, p, existing, undeletable) {
          var k :| 0 <= k < |sel| && HasFile(sel[k], existing) && sel[k].filePath.value == p && p !in undeletable;
          if k < |sel| - 1 {
            assert init[k] == sel[k];
          }
        }
        if RemovesPath(init, p, existing, undeletable) {
          var k :| 0 <= k < |init| && HasFile(init[k], existing) && init[k].filePath.value == p && p !in undeletable;
          assert sel[k] == init[k];
        }
      }
    }
  }

  /** `x` is an expired record whose existing, deletable file is at `p`. */
  predicate ExpiredFileAt(x: ExportJob, p: string, now: int, existing: set<string>, undeletable: set<string>) {
    Expired(x, now) && HasFile(x, existing) && x.filePath.value == p && p !in undeletable
  }

  /**
   * The sweep's effect on the disk: a path is removed iff it is the existing,
   * deletable file of some expired completed record.
   */
  lemma SweepRemovesExpiredFiles(rs: seq<ExportJob>, now: int, existing: set<string>, undeletable: set<string>)
    ensures forall p :: p in SweptPaths(ExpiredSelection(rs, now), existing, undeletable) <==>
      exists i :: 0 <= i < |rs| && ExpiredFileAt(rs[i], p, now, existing, undeletable)
  {
    var sel := ExpiredSelection(rs, now);
    SweptPathsExact(sel, existing, undeletable);
    forall p
      ensures RemovesPath(sel, p, existing, undeletable) <==>
        exists i :: 0 <= i < |rs| && ExpiredFileAt(rs[i], p, now, existing, undeletable)
    {
      if RemovesPath(sel, p, existing, undeletable) {
        var k :| 0 <= k < |sel| && HasFile(sel[k], existing) && sel[k].filePath.value == p && p !in undeletable;
        assert sel[k] in sel;
        var i :| 0 <= i < |rs| && rs[i] == sel[k];
        assert ExpiredFileAt(rs[i], p, now, existing, undeletable);
      }
      if exists i :: 0 <= i < |rs| && ExpiredFileAt(rs[i], p, now, existing, undeletable) {
        var i :| 0 <= i < |rs| && ExpiredFileAt(rs[i], p, now, existing, undeletable);
        assert rs[i] in sel;
        var k :| 0 <= k < |sel| && sel[k] == rs[i];
        assert HasFile(sel[k], existing) && sel[k].filePath.value == p;
      }
    }
  }

  /** Processing one more selected record: the fold's step, stated at index `i`. */
  lemma SweptStep(rs: seq<ExportJob>, sel: seq<ExportJob>, i: nat, existing: set<string>, undeletable: set<string>)
    requires i < |sel|
    ensures SweptRecords(rs, sel[..i + 1], existing, undeletable) ==
      if UnlinkFails(sel[i], existing, undeletable) then SweptRecords(rs, sel[..i], existing, undeletable)
      else DeleteFirst(SweptRecords(rs, sel[..i], existing, undeletable), sel[i].jobId)
    ensures SweptPaths(sel[..i + 1], existing, undeletable) ==
      SweptPaths(sel[..i], existing, undeletable) + PathRemovedBy(sel[i], existing, undeletable)
  {
    assert sel[..i + 1][..i] == sel[..i];
  }

  /** Removing two sets of paths one after the other removes their union. */
  lemma RemoveInTurn(files: map<string, Storage.Artifact>, a: set<string>, b: set<string>)
    ensures files - (a + b) == (files - a) - b
    ensures (files - a).Keys == files.Keys - a
  {
  }

  /**
   * One iteration's `try`: remove the record's file when it has a path and
   * the file exists, then delete the record, unless the unlink throws, in
   * which case the error is caught and the record kept. `swept` are the
   * files earlier iterations removed.
   */
  method SweepOne(store: ExportJobCollection, disk: Storage.Disk, job: ExportJob,
                  ghost existing: set<string>, ghost swept: set<string>)
    requires store.Valid()
    requires disk.files.Keys == existing - swept
    requires forall p :: p in swept ==> p !in disk.undeletable
    modifies store, disk
    ensures store.Valid()
    ensures disk.undeletable == old(disk.undeletable)
    ensures store.records == if UnlinkFails(job, existing, disk.undeletable) then old(store.records)
                             else DeleteFirst(old(store.records), job.jobId)
    ensures disk.files == old(disk.files) - PathRemovedBy(job, existing, disk.undeletable)
  {
    var removed := true;
    if job.filePath.Some? && job.filePath.value != "" && disk.Exists(job.filePath.value) {
      removed := disk.Unlink(job.filePath.value);
    }
    if removed {
      store.DeleteOne(job.jobId);
    }
  }

  /** `cleanupExpiredExports`, one sweep at the instant `now`. */
  method CleanupExpiredExports(store: ExportJobCollection, disk: Storage.Disk, now: int)
    requires store.Valid()
    modifies store, disk
    ensures store.Valid()
    ensures disk.undeletable == old(disk.undeletable)
    ensures store.records == SweptRecords(old(store.records), ExpiredSelection(old(store.records), now),
                                          old(disk.files).Keys, disk.undeletable)
    ensures disk.files == old(disk.files) - SweptPaths(ExpiredSelection(old(store.records), now),
                                                       old(disk.files).Keys, disk.undeletable)
  {
    var expiredJobs := ExpiredSelection(store.records, now);
    ghost var records0 := store.records;
    ghost var files0 := disk.files;
    ghost var undeletable := disk.undeletable;
    var i := 0;
    while i < |expiredJobs|
      invariant 0 <= i <= |expiredJobs|
      invariant store.Valid()
      invariant disk.undeletable == undeletable
      invariant store.records == SweptRecords(records0, expiredJobs[..i], files0.Keys, undeletable)
      invariant disk.files == files0 - SweptPaths(expiredJobs[..i], files0.Keys, undeletable)
    {
      ghost var swept := SweptPaths(expiredJobs[..i], files0.Keys, undeletable);
      SweptPathsBounds(expiredJobs[..i], files0.Keys, undeletable);
      SweptStep(records0, expiredJobs, i, files0.Keys, undeletable);
      RemoveInTurn(files0, swept, PathRemovedBy(expiredJobs[i], files0.Keys, undeletable));
      SweepOne(store, disk, expiredJobs[i], files0.Keys, swept);
      i := i + 1;
    }
    assert expiredJobs[..i] == expiredJobs;
  }
}
