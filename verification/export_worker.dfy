/**
 * The export worker's job handler: fetch the properties, write the artifact
 * in the requested format, and, for a PDF only, record the completed export
 * with a fresh download token that expires one hour later.
 */
module ExportWorker {
  import opened Wrappers
  import opened ExportArtifacts
  import opened ExportJobModel
  import Storage
  import ExportQueue
  import Hex
  import Paths

  /** The download link's lifetime: one hour, in milliseconds. */
  const TokenTtlMs: int := 60 * 60 * 1000

  /** The number of random bytes a token is made from. */
  const TokenByteCount: nat := 32

  /** `export_<jobId>.pdf` for the format 'pdf'; `.csv` for any other value, a missing one included. */
  function ExportFileName(jobId: string, format: Option<string>): (name: string)
    ensures |name| == |jobId| + 11
    ensures ('/' in name) <==> ('/' in jobId)
  {
    "export_" + jobId + (if format == Some("pdf") then ".pdf" else ".csv")
  }

  function ExportPath(exportDir: string, jobId: string, format: Option<string>): string {
    Paths.JoinPath(exportDir, ExportFileName(jobId, format))
  }

  /** The file lies directly in the export directory, and its extension follows the format. */
  lemma ExportPathExtension(exportDir: string, jobId: string, format: Option<string>)
    ensures var p := ExportPath(exportDir, jobId, format);
      && p == exportDir + "/export_" + jobId + (if format == Some("pdf") then ".pdf" else ".csv")
      && |p| >= 4
      && (format == Some("pdf") ==> p[|p| - 4..] == ".pdf")
      && (format != Some("pdf") ==> p[|p| - 4..] == ".csv")
  {
  }

  /** The basename of the path is the file name, so downloads are served as `export_<jobId>.<ext>`. */
  lemma ExportPathBasename(exportDir: string, jobId: string, format: Option<string>)
    requires '/' !in jobId
    ensures Paths.Basename(ExportPath(exportDir, jobId, format)) == ExportFileName(jobId, format)
  {
    var ext := if format == Some("pdf") then ".pdf" else ".csv";
    assert '/' !in "export_" && '/' !in ext;
    assert ExportFileName(jobId, format) == "export_" + jobId + ext;
    Paths.BasenameOfJoin(exportDir, ExportFileName(jobId, format));
  }

  /** The token: the random bytes, hex-encoded. */
  function TokenOf(randomBytes: seq<Hex.Byte>): (token: string)
    ensures |token| == 2 * |randomBytes|
    ensures forall i :: 0 <= i < |token| ==> Hex.IsHexDigit(token[i])
  {
    Hex.HexEncode(randomBytes)
  }

  /** The token is 64 lower-case hexadecimal characters. */
  lemma TokenShape(randomBytes: seq<Hex.Byte>)
    requires |randomBytes| == TokenByteCount
    ensures |TokenOf(randomBytes)| == 64
    ensures forall i :: 0 <= i < 64 ==> Hex.IsHexDigit(TokenOf(randomBytes)[i])
  {
  }

  /** The CSV artifact: one row object per property, in input order. */
  function CsvRows(ps: seq<Property>): (rows: seq<CsvRow>)
    ensures |rows| == |ps|
    ensures forall i :: 0 <= i < |ps| ==> rows[i] == CsvRowOf(ps[i])
  {
    seq(|ps|, i requires 0 <= i < |ps| => CsvRowOf(ps[i]))
  }

  /** The update document a finished PDF export of `job` saves. */
  function CompletionOf(job: ExportQueue.QueuedJob, exportDir: string, randomBytes: seq<Hex.Byte>, now: int): Completion {
    Completion(job.id, job.data.userId, ExportPath(exportDir, job.id, job.data.format), TokenOf(randomBytes), now + TokenTtlMs)
  }

  /**
   * Processes one queued job. `fetched` is the outcome of the property query:
   * its failure is rethrown and nothing is written. The finished-write
   * callback is taken to run after the write; a failed metadata save is
   * swallowed. The CSV branch writes the file and no record.
   */
  method ProcessExportJob(store: ExportJobCollection, disk: Storage.Disk, exportDir: string,
                          job: ExportQueue.QueuedJob, fetched: Result<seq<Property>, string>,
                          randomBytes: seq<Hex.Byte>, now: int)
    returns (outcome: Result<(), string>)
    requires store.Valid() && job.id != ""
    requires |randomBytes| == TokenByteCount
    modifies store, disk
    ensures store.Valid()
    ensures disk.undeletable == old(disk.undeletable)
    ensures fetched.Failure? ==> outcome == Failure(fetched.error)
    ensures fetched.Failure? ==> store.records == old(store.records) && disk.files == old(disk.files)
    ensures fetched.Success? ==> outcome == Success(())
    ensures fetched.Success? && job.data.format == Some("pdf") ==>
      && disk.files == old(disk.files)[ExportPath(exportDir, job.id, job.data.format) := Storage.PdfFile(PdfLines(fetched.value))]
      && store.records == AfterCompletionSave(old(store.records), CompletionOf(job, exportDir, randomBytes, now), now)
    ensures fetched.Success? && job.data.format != Some("pdf") ==>
      && disk.files == old(disk.files)[ExportPath(exportDir, job.id, job.data.format) := Storage.CsvFile(CsvRows(fetched.value))]
      && store.records == old(store.records)
  {
    if fetched.Failure? {
      return Failure(fetched.error);
    }
    var properties := fetched.value;
    var filePath := ExportPath(exportDir, job.id, job.data.format);
    if job.data.format == Some("pdf") {
      var lines := RenderPdf(properties);
      disk.WriteFile(filePath, Storage.PdfFile(lines));
      var token := TokenOf(randomBytes);
      var expiresAt := now + TokenTtlMs;
      var _ := store.FindOneAndUpdateCompleted(Completion(job.id, job.data.userId, filePath, token, expiresAt), now);
    } else {
      var rows := WriteCsvRows(properties);
      assert rows == CsvRows(properties);
      disk.WriteFile(filePath, Storage.CsvFile(rows));
    }
    outcome := Success(());
  }
}
