/** The two `path` operations the export pipeline uses, on '/'-separated paths. */
module Paths {

  /** `path.join(dir, name)` for a normalised directory and a plain file name. */
  function JoinPath(dir: string, name: string): string {
    dir + "/" + name
  }

  /** `path.basename(p)`: what follows the last '/'. */
  function Basename(p: string): (b: string)
    ensures '/' !in b
    ensures |b| <= |p| && b == p[|p| - |b|..]
    decreases |p|
  {
    if p == [] || p[|p| - 1] == '/' then [] else Basename(p[..|p| - 1]) + [p[|p| - 1]]
  }

  /** The file name a joined path was built from is its basename. */
  lemma {:induction false} BasenameOfJoin(dir: string, name: string)
    requires '/' !in name
    ensures Basename(JoinPath(dir, name)) == name
    decreases |name|
  {
    var p := JoinPath(dir, name);
    if name != [] {
      var shorter := name[..|name| - 1];
      assert p[..|p| - 1] == JoinPath(dir, shorter);
      BasenameOfJoin(dir, shorter);
      assert name == shorter + [name[|name| - 1]];
    }
  }
}
