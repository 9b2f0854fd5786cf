/**
 * The ExportJob collection: one record per export job, keyed by `jobId`,
 * with a second unique key `downloadToken` once the export has completed.
 * The collection keeps insertion order, so `findOne` returns the first match.
 */
module ExportJobModel {
  import opened Wrappers

  /** The schema's status enumeration. */
  datatype Status = Pending | Completed | Failed

  /**
   * A stored record. `jobId`, `userId` and `status` are always present;
   * `filePath`, `downloadToken` and `expiresAt` may be absent. Times are
   * milliseconds since the epoch.
   */
  datatype ExportJob = ExportJob(
    jobId: string,
    userId: string,
    status: Status,
    filePath: Option<string>,
    downloadToken: Option<string>,
    expiresAt: Option<int>,
    createdAt: int,
    updatedAt: int)

  /** A new document: the status defaults to `pending`; both timestamps are the creation time. */
  function NewExportJob(jobId: string, userId: string, status: Option<Status>, filePath: Option<string>,
                        downloadToken: Option<string>, expiresAt: Option<int>, now: int): (r: ExportJob)
    ensures status.None? ==> r.status == Pending
    ensures status.Some? ==> r.status == status.value
    ensures r.jobId == jobId && r.userId == userId && r.createdAt == now && r.updatedAt == now
  {
    ExportJob(jobId, userId, status.GetOr(Pending), filePath, downloadToken, expiresAt, now, now)
  }

  /** `jobId` is required and unique. */
  predicate UniqueJobIds(rs: seq<ExportJob>) {
    && (forall i :: 0 <= i < |rs| ==> rs[i].jobId != "")
    && (forall i, j :: 0 <= i < j < |rs| ==> rs[i].jobId != rs[j].jobId)
  }

  /** No two records share a download token that is present. */
  predicate UniqueTokens(rs: seq<ExportJob>) {
    forall i, j :: 0 <= i < j < |rs| && rs[i].downloadToken.Some? ==> rs[i].downloadToken != rs[j].downloadToken
  }

  /** The constraints the schema's unique indexes keep on the collection. */
  predicate ValidStore(rs: seq<ExportJob>) {
    UniqueJobIds(rs) && UniqueTokens(rs)
  }

  /** The position of the first record that `matches`, as `findOne` scans. */
  function FirstIndex(rs: seq<ExportJob>, matches: ExportJob -> bool): (r: Option<nat>)
    ensures r.Some? ==> r.value < |rs| && matches(rs[r.value])
    ensures r.Some? ==> forall j :: 0 <= j < r.value ==> !matches(rs[j])
    ensures r.None? <==> forall j :: 0 <= j < |rs| ==> !matches(rs[j])
  {
    if rs == [] then None
    else if matches(rs[0]) then Some(0)
    else match FirstIndex(rs[1..], matches)
      case None => None
      case Some(k) => Some(k + 1)
  }

  function IndexOfJob(rs: seq<ExportJob>, jobId: string): Option<nat> {
    FirstIndex(rs, (r: ExportJob) => r.jobId == jobId)
  }

  /** `findOne({ jobId })`. */
  function FindByJobId(rs: seq<ExportJob>, jobId: string): (r: Option<ExportJob>)
    ensures r.None? <==> forall i :: 0 <= i < |rs| ==> rs[i].jobId != jobId
    ensures r.Some? ==> r.value in rs && r.value.jobId == jobId
  {
    match IndexOfJob(rs, jobId)
    case None => None
    case Some(i) => Some(rs[i])
  }

  /** `findOne({ downloadToken: token })`: a record without a token never matches. */
  function FindByToken(rs: seq<ExportJob>, token: string): (r: Option<ExportJob>)
    ensures r.None? <==> forall i :: 0 <= i < |rs| ==> rs[i].downloadToken != Some(token)
    ensures r.Some? ==> r.value in rs && r.value.downloadToken == Some(token)
  {
    match FirstIndex(rs, (r: ExportJob) => r.downloadToken == Some(token))
    case None => None
    case Some(i) => Some(rs[i])
  }

  /** With unique job ids, the record found for a job id is the only one carrying it. */
  lemma FindByJobIdUnique(rs: seq<ExportJob>, i: nat)
    requires ValidStore(rs) && i < |rs|
    ensures FindByJobId(rs, rs[i].jobId) == Some(rs[i])
  {
  }

  /** With unique tokens, the record found for a token is the only one carrying it. */
  lemma FindByTokenUnique(rs: seq<ExportJob>, i: nat)
    requires ValidStore(rs) && i < |rs| && rs[i].downloadToken.Some?
    ensures FindByToken(rs, rs[i].downloadToken.value) == Some(rs[i])
  {
  }

  /** `deleteOne`: removes the first record with this job id, if any. */
  function DeleteFirst(rs: seq<ExportJob>, jobId: string): (r: seq<ExportJob>)
    ensures IndexOfJob(rs, jobId).None? ==> r == rs
    ensures IndexOfJob(rs, jobId).Some? ==> |r| == |rs| - 1
  {
    match IndexOfJob(rs, jobId)
    case None => rs
    case Some(i) => rs[..i] + rs[i + 1..]
  }

  /** Removing one position keeps the unique keys unique. */
  lemma RemoveAtPreservesValid(rs: seq<ExportJob>, i: nat)
    requires ValidStore(rs) && i < |rs|
    ensures ValidStore(rs[..i] + rs[i + 1..])
  {
    var r := rs[..i] + rs[i + 1..];
    assert forall j :: 0 <= j < |r| ==> r[j] == rs[if j < i then j else j + 1];
  }

  /** Deleting keeps the unique keys unique and removes exactly the record with that job id. */
  lemma DeletePreservesValid(rs: seq<ExportJob>, jobId: string)
    requires ValidStore(rs)
    ensures ValidStore(DeleteFirst(rs, jobId))
    ensures forall x: ExportJob :: x in DeleteFirst(rs, jobId) <==> x in rs && x.jobId != jobId
  {
    var k := IndexOfJob(rs, jobId);
    if k.Some? {
      var i := k.value;
      var r := DeleteFirst(rs, jobId);
      RemoveAtPreservesValid(rs, i);
      assert r == rs[..i] + rs[i + 1..];
      forall x: ExportJob
        ensures x in r <==> x in rs && x.jobId != jobId
      {
        if x in rs && x.jobId != jobId {
          var j :| 0 <= j < |rs| && rs[j] == x;
          assert j != i;
          if j < i {
            assert r[j] == x;
          } else {
            assert r[j - 1] == x;
          }
        }
      }
    }
  }

  /** The fields a completed PDF export writes, all in one update document. */
  datatype Completion = Completion(jobId: string, userId: string, filePath: string, token: string, expiresAt: int)

  /** MongoDB's duplicate-key error on the unique `downloadToken` index. */
  datatype SaveError = DuplicateDownloadToken

  /** Whether a record of another job already holds this token. */
  predicate TokenHeldByOther(rs: seq<ExportJob>, jobId: string, token: string) {
    exists j :: 0 <= j < |rs| && rs[j].jobId != jobId && rs[j].downloadToken == Some(token)
  }

  /** The update applied to an existing record: every field of the update document is set. */
  function Complete(r: ExportJob, c: Completion, now: int): (r': ExportJob)
    ensures DescribesCompletion(r', c)
    ensures r'.createdAt == r.createdAt && r'.updatedAt == now
  {
    r.(jobId := c.jobId, userId := c.userId, status := Completed, filePath := Some(c.filePath),
       downloadToken := Some(c.token), expiresAt := Some(c.expiresAt), updatedAt := now)
  }

  /** The record a completed export describes. */
  predicate DescribesCompletion(r: ExportJob, c: Completion) {
    && r.jobId == c.jobId && r.userId == c.userId && r.status == Completed
    && r.filePath == Some(c.filePath) && r.downloadToken == Some(c.token) && r.expiresAt == Some(c.expiresAt)
  }

  /**
   * `findOneAndUpdate({ jobId }, update, { upsert: true })`: updates the
   * record of that job, or inserts one when there is none. The unique
   * token index rejects the write when another record holds the token.
   */
  function UpsertCompleted(rs: seq<ExportJob>, c: Completion, now: int): (r: Result<seq<ExportJob>, SaveError>)
    ensures r.Failure? <==> TokenHeldByOther(rs, c.jobId, c.token)
    ensures r.Success? && IndexOfJob(rs, c.jobId).Some? ==> |r.value| == |rs|
    ensures r.Success? && IndexOfJob(rs, c.jobId).None? ==> |r.value| == |rs| + 1
  {
    if TokenHeldByOther(rs, c.jobId, c.token) then Failure(DuplicateDownloadToken)
    else match IndexOfJob(rs, c.jobId)
      case Some(i) => Success(rs[i := Complete(rs[i], c, now)])
      case None => Success(rs + [NewExportJob(c.jobId, c.userId, Some(Completed), Some(c.filePath),
                                              Some(c.token), Some(c.expiresAt), now)])
  }

  /** The collection after the completion save: a rejected write changes nothing. */
  function AfterCompletionSave(rs: seq<ExportJob>, c: Completion, now: int): seq<ExportJob> {
    match UpsertCompleted(rs, c, now)
    case Success(updated) => updated
    case Failure(_) => rs
  }

  /** A token no record holds is always accepted. */
  lemma FreshTokenAccepted(rs: seq<ExportJob>, c: Completion, now: int)
    requires forall j :: 0 <= j < |rs| ==> rs[j].downloadToken != Some(c.token)
    ensures UpsertCompleted(rs, c, now).Success?
  {
  }

  /** The upsert of a job that already has a record: that record is updated in place. */
  lemma UpsertUpdatesExisting(rs: seq<ExportJob>, c: Completion, now: int, i: nat)
    requires ValidStore(rs) && c.jobId != ""
    requires !TokenHeldByOther(rs, c.jobId, c.token)
    requires IndexOfJob(rs, c.jobId) == Some(i)
    ensures ValidStore(rs[i := Complete(rs[i], c, now)])
    ensures forall x: ExportJob :: x.jobId != c.jobId ==> (x in rs[i := Complete(rs[i], c, now)] <==> x in rs)
  {
    var r := rs[i := Complete(rs[i], c, now)];
    assert UniqueTokens(r) by {
      forall a, b | 0 <= a < b < |r| && r[a].downloadToken.Some?
        ensures r[a].downloadToken != r[b].downloadToken
      {
        if a == i {
          assert !(rs[b].jobId != c.jobId && rs[b].downloadToken == Some(c.token));
        } else if b == i {
          assert !(rs[a].jobId != c.jobId && rs[a].downloadToken == Some(c.token));
        }
      }
    }
    forall x: ExportJob | x.jobId != c.jobId
      ensures x in r <==> x in rs
    {
      if x in rs {
        var j :| 0 <= j < |rs| && rs[j] == x;
        assert r[j] == x;
      }
    }
  }

  /** The upsert of a job without a record: one record is appended. */
  lemma UpsertInsertsNew(rs: seq<ExportJob>, c: Completion, n: ExportJob)
    requires ValidStore(rs) && c.jobId != "" && n.jobId == c.jobId && n.downloadToken == Some(c.token)
    requires !TokenHeldByOther(rs, c.jobId, c.token)
    requires IndexOfJob(rs, c.jobId).None?
    ensures ValidStore(rs + [n])
  {
    var r := rs + [n];
    assert UniqueTokens(r) by {
      forall a, b | 0 <= a < b < |r| && r[a].downloadToken.Some?
        ensures r[a].downloadToken != r[b].downloadToken
      {
        if b == |rs| {
          assert !(rs[a].jobId != c.jobId && rs[a].downloadToken == Some(c.token));
        }
      }
    }
  }

  /**
   * After a successful upsert the collection is still valid, holds exactly
   * one record for the job, and that record carries status, path, token and
   * expiry together; every record of another job is unchanged, and none is
   * added or lost.
   */
  lemma UpsertEffect(rs: seq<ExportJob>, c: Completion, now: int)
    requires ValidStore(rs) && c.jobId != ""
    requires UpsertCompleted(rs, c, now).Success?
    ensures ValidStore(UpsertCompleted(rs, c, now).value)
    ensures FindByJobId(UpsertCompleted(rs, c, now).value, c.jobId).Some?
    ensures DescribesCompletion(FindByJobId(UpsertCompleted(rs, c, now).value, c.jobId).value, c)
    ensures forall x: ExportJob :: x.jobId != c.jobId ==> (x in UpsertCompleted(rs, c, now).value <==> x in rs)
  {
    var r := UpsertCompleted(rs, c, now).value;
    match IndexOfJob(rs, c.jobId)
    case Some(i) =>
      UpsertUpdatesExisting(rs, c, now, i);
      FindByJobIdUnique(r, i);
    case None =>
      var n := NewExportJob(c.jobId, c.userId, Some(Completed), Some(c.filePath), Some(c.token), Some(c.expiresAt), now);
      UpsertInsertsNew(rs, c, n);
      assert r == rs + [n];
      FindByJobIdUnique(r, |rs|);
  }

  /**
   * Processing the same job twice (a redelivery) with fresh tokens leaves one
   * record for it, described by the later completion.
   */
  lemma RedeliveryKeepsOneRecord(rs: seq<ExportJob>, c1: Completion, c2: Completion, t1: int, t2: int)
    requires ValidStore(rs) && c1.jobId != "" && c2.jobId == c1.jobId
    requires UpsertCompleted(rs, c1, t1).Success?
    requires UpsertCompleted(UpsertCompleted(rs, c1, t1).value, c2, t2).Success?
    ensures var r2 := UpsertCompleted(UpsertCompleted(rs, c1, t1).value, c2, t2).value;
      && ValidStore(r2)
      && FindByJobId(r2, c1.jobId).Some?
      && DescribesCompletion(FindByJobId(r2, c1.jobId).value, c2)
      && |r2| == |UpsertCompleted(rs, c1, t1).value|
  {
    var r1 := UpsertCompleted(rs, c1, t1).value;
    UpsertEffect(rs, c1, t1);
    UpsertEffect(r1, c2, t2);
  }

  /** The collection as the application sees it: records in a mutable table. */
  class ExportJobCollection {
    var records: seq<ExportJob>

    ghost predicate Valid()
      reads this
    {
      ValidStore(records)
    }

    constructor ()
      ensures Valid() && records == []
    {
      records := [];
    }

    /** The completion upsert; a rejected write leaves the collection as it was. */
    method FindOneAndUpdateCompleted(c: Completion, now: int) returns (saved: Result<(), SaveError>)
      requires Valid() && c.jobId != ""
      modifies this
      ensures Valid()
      ensures saved.Failure? <==> UpsertCompleted(old(records), c, now).Failure?
      ensures records == AfterCompletionSave(old(records), c, now)
    {
      var r := UpsertCompleted(records, c, now);
      match r
      case Success(rs) =>
        UpsertEffect(records, c, now);
        records := rs;
        saved := Success(());
      case Failure(e) =>
        saved := Failure(e);
    }

    /** `deleteOne` by the record's identity (its job id, which is unique). */
    method DeleteOne(jobId: string)
      requires Valid()
      modifies this
      ensures Valid()
      ensures records == DeleteFirst(old(records), jobId)
    {
      DeletePreservesValid(records, jobId);
      records := DeleteFirst(records, jobId);
    }
  }
}
