/**
 * Properties of the export lifecycle as a whole: submission, processing,
 * status polling, download and expiry, composed from the handlers.
 */
module ExportLifecycle {
  import opened Wrappers
  import opened ExportJobModel
  import opened ExportWorker
  import opened ExportController
  import opened CleanupExpiredExports
  import ExportArtifacts
  import ExportQueue
  import Storage
  import Hex

  /**
   * Once a PDF export of `job` has been saved with a token no record held,
   * its link is offered by status strictly before the expiry, its download
   * is served as `export_<jobId>.pdf` up to and including the expiry, and
   * after the expiry both refuse, even though the file still exists.
   */
  lemma CompletedPdfExportWindow(rs: seq<ExportJob>, job: ExportQueue.QueuedJob, exportDir: string,
                                 randomBytes: seq<Hex.Byte>, now: int, existing: set<string>, t: int)
    requires ValidStore(rs) && job.id != "" && '/' !in job.id && job.data.format == Some("pdf")
    requires |randomBytes| == TokenByteCount
    requires forall j :: 0 <= j < |rs| ==> rs[j].downloadToken != Some(TokenOf(randomBytes))
    requires ExportPath(exportDir, job.id, job.data.format) in existing
    ensures var after := AfterCompletionSave(rs, CompletionOf(job, exportDir, randomBytes, now), now);
      && (t < now + TokenTtlMs ==>
            GetExportStatus(after, job.id, t) == JobStatus(Completed, Some(DownloadUrlPrefix + TokenOf(randomBytes))))
      && (t <= now + TokenTtlMs ==>
            DownloadExportFile(after, TokenOf(randomBytes), existing, t)
              == SendFile(ExportPath(exportDir, job.id, job.data.format), "export_" + job.id + ".pdf"))
      && (t >= now + TokenTtlMs ==> GetExportStatus(after, job.id, t) == JobStatus(Completed, None))
      && (t > now + TokenTtlMs ==> DownloadExportFile(after, TokenOf(randomBytes), existing, t) == LinkInvalid)
  {
    var c := CompletionOf(job, exportDir, randomBytes, now);
    FreshTokenAccepted(rs, c, now);
    UpsertEffect(rs, c, now);
    var after := UpsertCompleted(rs, c, now).value;
    var rec := FindByJobId(after, job.id).value;
    var i :| 0 <= i < |after| && after[i] == rec;
    StatusOfStoredJob(after, i, t);
    DownloadOfStoredToken(after, i, existing, t);
    ExportPathBasename(exportDir, job.id, job.data.format);
    TokenShape(randomBytes);
  }

  /**
   * A submitted job carries no format, so processing it takes the CSV branch:
   * the CSV file is written and no export record is created or changed.
   */
  method SubmitThenProcess(queue: ExportQueue.JobQueue, store: ExportJobCollection, disk: Storage.Disk,
                           body: ExportRequest, exportDir: string, fetched: seq<ExportArtifacts.Property>,
                           randomBytes: seq<Hex.Byte>, now: int)
    returns (reply: EnqueueReply)
    requires queue.Valid() && store.Valid()
    requires |randomBytes| == TokenByteCount
    modifies queue, store, disk
    ensures store.records == old(store.records)
    ensures disk.files == old(disk.files)[ExportPath(exportDir, reply.jobId, None) := Storage.CsvFile(CsvRows(fetched))]
  {
    reply := EnqueueExport(queue, body);
    var job := queue.jobs[|queue.jobs| - 1];
    assert job.data.format == None && job.id == reply.jobId;
    var _ := ProcessExportJob(store, disk, exportDir, job, Success(fetched), randomBytes, now);
  }

  /**
   * After a sweep, a record it removed is gone for good: status reports the
   * job as not found and its token no longer downloads anything.
   */
  lemma SweptJobIsGone(rs: seq<ExportJob>, i: nat, now: int, existing: set<string>, undeletable: set<string>, t: int)
    requires ValidStore(rs) && i < |rs|
    requires Expired(rs[i], now) && !UnlinkFails(rs[i], existing, undeletable)
    ensures var after := SweptRecords(rs, ExpiredSelection(rs, now), existing, undeletable);
      && GetExportStatus(after, rs[i].jobId, t) == JobNotFound
      && (rs[i].downloadToken.Some? ==> DownloadExportFile(after, rs[i].downloadToken.value, existing, t) == LinkInvalid)
  {
    var after := SweptRecords(rs, ExpiredSelection(rs, now), existing, undeletable);
    SweepOutcome(rs, now, existing, undeletable);
    forall j | 0 <= j < |after|
      ensures after[j].jobId != rs[i].jobId
      ensures rs[i].downloadToken.Some? ==> after[j].downloadToken != rs[i].downloadToken
    {
      assert after[j] in after;
      var k :| 0 <= k < |rs| && rs[k] == after[j];
      assert k != i;
    }
  }
}
