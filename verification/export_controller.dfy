/**
 * The export HTTP handlers: enqueue a job, report a job's status, and decide
 * whether a download token may fetch its file.
 */
module ExportController {
  import opened Wrappers
  import opened ExportJobModel
  import ExportQueue
  import Paths

  const DownloadUrlPrefix: string := "/api/v1/export/download/"

  /** The request body of `POST /export` after validation. */
  datatype ExportRequest = ExportRequest(userId: string, filters: Option<ExportQueue.Filters>, format: Option<string>)

  datatype EnqueueReply = EnqueueReply(statusCode: int, message: string, jobId: string)

  /**
   * `enqueueExport`: forwards the user id and the filters (never the format)
   * to the queue and answers 202 with the id the queue assigned.
   */
  method EnqueueExport(queue: ExportQueue.JobQueue, body: ExportRequest) returns (reply: EnqueueReply)
    requires queue.Valid()
    modifies queue
    ensures queue.Valid()
    ensures queue.jobs == old(queue.jobs) + [ExportQueue.QueuedJob(reply.jobId, "generateExport",
                                                                   ExportQueue.JobData(body.userId, body.filters, None))]
    ensures reply.statusCode == 202 && reply.message == "Export job enqueued"
    ensures forall i :: 0 <= i < |old(queue.jobs)| ==> old(queue.jobs)[i].id != reply.jobId
  {
    var id := queue.Add("generateExport", ExportQueue.JobData(body.userId, body.filters, None));
    reply := EnqueueReply(202, "Export job enqueued", id);
  }

  /** The reply of `GET /export/status/:jobId`. */
  datatype StatusReply =
    | JobNotFound                                          // 404 'Export job not found'
    | JobStatus(status: Status, downloadUrl: Option<string>)  // 200

  /** `job.status === 'completed' && job.downloadToken && job.expiresAt > now`; an empty token is falsy. */
  predicate LinkOffered(job: ExportJob, now: int) {
    && job.status == Completed
    && job.downloadToken.Some? && job.downloadToken.value != ""
    && job.expiresAt.Some? && job.expiresAt.value > now
  }

  /** `getExportStatus`: the stored status, and a download URL only while the link is offered. */
  function GetExportStatus(rs: seq<ExportJob>, jobId: string, now: int): (reply: StatusReply)
    ensures reply.JobNotFound? <==> forall i :: 0 <= i < |rs| ==> rs[i].jobId != jobId
  {
    match FindByJobId(rs, jobId)
    case None => JobNotFound
    case Some(job) =>
      JobStatus(job.status, if LinkOffered(job, now) then Some(DownloadUrlPrefix + job.downloadToken.value) else None)
  }

  /**
   * For a stored job the reply carries its status unchanged, and a URL exactly
   * when it is completed, has a token and expires strictly after now; the URL
   * is the download prefix followed by the token.
   */
  lemma StatusOfStoredJob(rs: seq<ExportJob>, i: nat, now: int)
    requires ValidStore(rs) && i < |rs|
    ensures GetExportStatus(rs, rs[i].jobId, now).JobStatus?
    ensures GetExportStatus(rs, rs[i].jobId, now).status == rs[i].status
    ensures GetExportStatus(rs, rs[i].jobId, now).downloadUrl.Some? <==>
      && rs[i].status == Completed
      && rs[i].downloadToken.Some? && rs[i].downloadToken.value != ""
      && rs[i].expiresAt.Some? && rs[i].expiresAt.value > now
    ensures GetExportStatus(rs, rs[i].jobId, now).downloadUrl.Some? ==>
      GetExportStatus(rs, rs[i].jobId, now).downloadUrl.value == DownloadUrlPrefix + rs[i].downloadToken.value
  {
    FindByJobIdUnique(rs, i);
  }

  /** The reply of `GET /export/download/:token`. */
  datatype DownloadReply =
    | LinkInvalid                              // 404 'Invalid or expired download link'
    | FileMissing                              // 404 'File not found'
    | SendFile(path: string, filename: string)  // the file, served under `filename`

  /**
   * `downloadExportFile`: looks the record up by token, rejects it only when
   * its expiry lies strictly before now (a missing expiry never does; the
   * status is not consulted), then serves the file if it exists.
   * `existing` is the set of paths present on disk.
   */
  function DownloadExportFile(rs: seq<ExportJob>, token: string, existing: set<string>, now: int): (reply: DownloadReply)
    ensures reply.LinkInvalid? <==>
      FindByToken(rs, token).None? || (FindByToken(rs, token).value.expiresAt.Some? && FindByToken(rs, token).value.expiresAt.value < now)
    ensures reply.SendFile? ==> reply.path in existing && reply.filename == Paths.Basename(reply.path)
    ensures reply.SendFile? ==> FindByToken(rs, token).Some? && FindByToken(rs, token).value.filePath == Some(reply.path)
  {
    match FindByToken(rs, token)
    case None => LinkInvalid
    case Some(job) =>
      if job.expiresAt.Some? && job.expiresAt.value < now then LinkInvalid
      else if job.filePath.None? || job.filePath.value !in existing then FileMissing
      else SendFile(job.filePath.value, Paths.Basename(job.filePath.value))
  }

  /** A token no record carries is rejected. */
  lemma UnknownTokenRejected(rs: seq<ExportJob>, token: string, existing: set<string>, now: int)
    requires forall i :: 0 <= i < |rs| ==> rs[i].downloadToken != Some(token)
    ensures DownloadExportFile(rs, token, existing, now) == LinkInvalid
  {
  }

  /** The complete decision for a token a stored record carries. */
  lemma DownloadOfStoredToken(rs: seq<ExportJob>, i: nat, existing: set<string>, now: int)
    requires ValidStore(rs) && i < |rs| && rs[i].downloadToken.Some?
    ensures DownloadExportFile(rs, rs[i].downloadToken.value, existing, now) ==
      if rs[i].expiresAt.Some? && rs[i].expiresAt.value < now then LinkInvalid
      else if rs[i].filePath.None? || rs[i].filePath.value !in existing then FileMissing
      else SendFile(rs[i].filePath.value, Paths.Basename(rs[i].filePath.value))
  {
    FindByTokenUnique(rs, i);
  }

  /**
   * At the instant `now == expiresAt` the status reply hides the URL, yet the
   * download of the same token is still served.
   */
  lemma ExpiryInstantDisagreement(rs: seq<ExportJob>, i: nat, existing: set<string>)
    requires ValidStore(rs) && i < |rs|
    requires rs[i].status == Completed && rs[i].downloadToken.Some? && rs[i].downloadToken.value != ""
    requires rs[i].expiresAt.Some? && rs[i].filePath.Some? && rs[i].filePath.value in existing
    ensures GetExportStatus(rs, rs[i].jobId, rs[i].expiresAt.value).downloadUrl.None?
    ensures DownloadExportFile(rs, rs[i].downloadToken.value, existing, rs[i].expiresAt.value).SendFile?
  {
    StatusOfStoredJob(rs, i, rs[i].expiresAt.value);
    DownloadOfStoredToken(rs, i, existing, rs[i].expiresAt.value);
  }

  /** A record with a token but no expiry is served at any time, yet status never offers its URL. */
  lemma TokenWithoutExpiry(rs: seq<ExportJob>, i: nat, existing: set<string>, now: int)
    requires ValidStore(rs) && i < |rs|
    requires rs[i].downloadToken.Some? && rs[i].expiresAt.None?
    requires rs[i].filePath.Some? && rs[i].filePath.value in existing
    ensures GetExportStatus(rs, rs[i].jobId, now).downloadUrl.None?
    ensures DownloadExportFile(rs, rs[i].downloadToken.value, existing, now).SendFile?
  {
    StatusOfStoredJob(rs, i, now);
    DownloadOfStoredToken(rs, i, existing, now);
  }

  /** The download decision does not depend on the record's status. */
  lemma DownloadIgnoresStatus(rs: seq<ExportJob>, i: nat, s: Status, token: string, existing: set<string>, now: int)
    requires ValidStore(rs) && i < |rs|
    ensures DownloadExportFile(rs[i := rs[i].(status := s)], token, existing, now) == DownloadExportFile(rs, token, existing, now)
  {
    var rs' := rs[i := rs[i].(status := s)];
    if rs[i].downloadToken == Some(token) {
      assert ValidStore(rs') by {
        assert forall j :: 0 <= j < |rs| ==> rs'[j].jobId == rs[j].jobId && rs'[j].downloadToken == rs[j].downloadToken;
      }
      DownloadOfStoredToken(rs, i, existing, now);
      DownloadOfStoredToken(rs', i, existing, now);
    } else {
      var f := (r: ExportJob) => r.downloadToken == Some(token);
      assert forall j :: 0 <= j < |rs| ==> f(rs'[j]) == f(rs[j]);
      var k, k' := FirstIndex(rs, f), FirstIndex(rs', f);
      assert k == k';
    }
  }
}
