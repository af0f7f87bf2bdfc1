/**
 * An abstract filesystem: the directories with their listings, and the
 * regular files, each named by its path string. Paths are compared as
 * written (no `..` folding, no symbolic links).
 */
module Paths {
  import opened Strings

  datatype FileSystem = FileSystem(listing: map<string, seq<string>>, files: set<string>)

  predicate IsDir(fs: FileSystem, p: string) { p in fs.listing }

  predicate IsFile(fs: FileSystem, p: string) { p in fs.files }

  /** Directory entries are non-empty names without a `/`, as `os.listdir` returns them. */
  predicate WellFormed(fs: FileSystem) {
    forall d, k :: d in fs.listing && 0 <= k < |fs.listing[d]| ==> fs.listing[d][k] != [] && '/' !in fs.listing[d][k]
  }

  /** `os.path.join(a, b)` for two components. */
  function JoinPath(a: string, b: string): (r: string)
    ensures b != [] && '/' !in b ==> |r| > |a| && EndsWith(r, b)
  {
    if b != [] && b[0] == '/' then b
    else if a == [] || EndsWith(a, "/") then a + b
    else a + "/" + b
  }

  /** `os.path.abspath(p)` relative to the working directory `cwd`, without normalisation. */
  function AbsPath(cwd: string, p: string): string {
    JoinPath(cwd, p)
  }
}
