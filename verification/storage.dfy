/** The directory the artifacts are written to, as a map from existing paths to their content. */
module Storage {
  import ExportArtifacts

  /** What an export file holds. */
  datatype Artifact =
    | PdfFile(lines: seq<ExportArtifacts.PdfLine>)
    | CsvFile(rows: seq<ExportArtifacts.CsvRow>)

  class Disk {
    /** The existing files and their content. */
    var files: map<string, Artifact>
    /** Existing paths whose removal throws (permissions, a busy file). */
    var undeletable: set<string>

    constructor (files0: map<string, Artifact>, undeletable0: set<string>)
      ensures files == files0 && undeletable == undeletable0
    {
      files := files0;
      undeletable := undeletable0;
    }

    /** `fs.existsSync(path)`. */
    function Exists(path: string): bool
      reads this
    {
      path in files
    }

    /** `fs.createWriteStream(path)` followed by the write: the file is created or replaced. */
    method WriteFile(path: string, content: Artifact)
      modifies this
      ensures files == old(files)[path := content]
      ensures undeletable == old(undeletable)
    {
      files := files[path := content];
    }

    /** `fs.unlinkSync(path)`: `ok` is false where the call throws. */
    method Unlink(path: string) returns (ok: bool)
      modifies this
      ensures ok <==> path in old(files) && path !in undeletable
      ensures files == if ok then old(files) - {path} else old(files)
      ensures undeletable == old(undeletable)
    {
      ok := path in files && path !in undeletable;
      if ok {
        files := files - {path};
      }
    }
  }
}
