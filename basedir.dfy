/**
 * Directory Resolver: `findBaseDir` in easybuild/tools/filetools.py walks
 * down from the working directory while the listing, with `easybuildlog`
 * ignored, holds exactly one entry.
 */
module BaseDirs {
  import opened Wrappers
  import opened Strings
  import opened Paths

  /** Directory names that are never taken as the unpacked source root. */
  const IgnoreDirs: seq<string> := ["easybuildlog"]

  /** `lst` with its element at `i` taken out. */
  function Without(lst: seq<string>, i: nat): seq<string>
    requires i < |lst|
  {
    lst[..i] + lst[i + 1..]
  }

  /** `lst.remove(x)`: drops the first occurrence of `x` (`RemoveFirstSpec`). */
  function RemoveFirst(lst: seq<string>, x: string): (r: seq<string>)
    ensures x !in lst ==> r == lst
    ensures forall e :: e in r ==> e in lst
  {
    if lst == [] then []
    else if lst[0] == x then lst[1..]
    else [lst[0]] + RemoveFirst(lst[1..], x)
  }

  /** `i` is the index of the first `x` in `lst`. */
  predicate FirstAt(lst: seq<string>, x: string, i: int) {
    0 <= i < |lst| && lst[i] == x && forall k :: 0 <= k < i ==> lst[k] != x
  }

  /**
   * Removing `x` from a list that holds it takes out exactly its first
   * occurrence and keeps the other entries in order.
   */
  lemma {:induction false} RemoveFirstSpec(lst: seq<string>, x: string)
    requires x in lst
    ensures exists i :: FirstAt(lst, x, i) && RemoveFirst(lst, x) == Without(lst, i)
  {
    if lst[0] == x {
      assert FirstAt(lst, x, 0) && lst[1..] == Without(lst, 0);
    } else {
      var tl := lst[1..];
      assert x in tl;
      RemoveFirstSpec(tl, x);
      var j :| FirstAt(tl, x, j) && RemoveFirst(tl, x) == Without(tl, j);
      assert lst[..j + 1] == [lst[0]] + tl[..j];
      assert lst[j + 2..] == tl[j + 1..];
      assert FirstAt(lst, x, j + 1);
      assert RemoveFirst(lst, x) == Without(lst, j + 1);
    }
  }

  /** `getLocalDirsPurged`: the listing with the first `easybuildlog` taken out (`PurgedSpec`). */
  function Purged(lst: seq<string>): (r: seq<string>)
    ensures forall e :: e in r ==> e in lst
  {
    RemoveFirst(lst, IgnoreDirs[0])
  }

  /**
   * The purged listing is the listing itself when it holds no
   * `easybuildlog`, and otherwise the listing without its first
   * `easybuildlog`, the other entries in order.
   */
  lemma PurgedSpec(lst: seq<string>)
    ensures "easybuildlog" !in lst ==> Purged(lst) == lst
    ensures "easybuildlog" in lst ==> exists i :: FirstAt(lst, "easybuildlog", i) && Purged(lst) == Without(lst, i)
  {
    if "easybuildlog" in lst {
      RemoveFirstSpec(lst, "easybuildlog");
    }
  }

  /** The directories strictly longer than `d`; it shrinks at every descent. */
  function Deeper(fs: FileSystem, d: string): set<string> {
    set p | p in fs.listing && |p| > |d|
  }

  lemma DeeperShrinks(fs: FileSystem, d: string, next: string)
    requires next in fs.listing && |next| > |d|
    ensures |Deeper(fs, next)| < |Deeper(fs, d)|
  {
    assert Deeper(fs, next) <= Deeper(fs, d) - {next};
    assert next in Deeper(fs, d);
    assert |Deeper(fs, d) - {next}| == |Deeper(fs, d)| - 1;
    SubsetCard(Deeper(fs, next), Deeper(fs, d) - {next});
  }

  lemma {:induction false} SubsetCard(a: set<string>, b: set<string>)
    requires a <= b
    ensures |a| <= |b|
    decreases |b|
  {
    if b != {} {
      var x :| x in b;
      SubsetCard(a - {x}, b - {x});
    }
  }

  /** The path `findBaseDir` looks at next from `d`, when `d` holds a single entry. */
  function SoleEntry(fs: FileSystem, d: string): Option<string>
    requires d in fs.listing
  {
    var lst := Purged(fs.listing[d]);
    if |lst| == 1 then Some(JoinPath(d, lst[0])) else None
  }

  lemma SoleEntryLonger(fs: FileSystem, d: string)
    requires WellFormed(fs) && d in fs.listing && SoleEntry(fs, d).Some?
    ensures |SoleEntry(fs, d).value| > |d|
  {
    var lst := Purged(fs.listing[d]);
    assert lst[0] in fs.listing[d];
  }

  /** One descent: the single entry of `d`, when there is one and it is a directory. */
  function Descend(fs: FileSystem, d: string): Option<string>
    requires d in fs.listing
  {
    match SoleEntry(fs, d)
    case Some(next) => if IsDir(fs, next) then Some(next) else None
    case None => None
  }

  /** The result of `n` descents from `d`, if that many are possible. */
  function DescendN(fs: FileSystem, d: string, n: nat): Option<string>
    requires d in fs.listing
    ensures DescendN(fs, d, n).Some? ==> DescendN(fs, d, n).value in fs.listing
    decreases n
  {
    if n == 0 then Some(d)
    else match Descend(fs, d)
      case Some(next) => DescendN(fs, next, n - 1)
      case None => None
  }

  /** The source as written: stops at the sole entry even when that entry is a file. */
  function BaseDirAsWritten(fs: FileSystem, d: string): (r: string)
    requires WellFormed(fs) && d in fs.listing
    ensures SoleEntry(fs, d).None? ==> r == d
    decreases |Deeper(fs, d)|
  {
    match SoleEntry(fs, d)
    case None => d
    case Some(next) =>
      if IsDir(fs, next) then
        SoleEntryLonger(fs, d);
        DeeperShrinks(fs, d, next);
        BaseDirAsWritten(fs, next)
      else next
  }

  /** The intended resolver: descend while the single entry is a directory, return a directory. */
  function BaseDir(fs: FileSystem, d: string): (r: string)
    requires WellFormed(fs) && d in fs.listing
    ensures r in fs.listing
    ensures SoleEntry(fs, d).None? ==> r == d
    decreases |Deeper(fs, d)|
  {
    match Descend(fs, d)
    case None => d
    case Some(next) =>
      SoleEntryLonger(fs, d);
      DeeperShrinks(fs, d, next);
      BaseDir(fs, next)
  }

  /**
   * The corrected resolver returns a directory reached by single-entry
   * descents, from which no further descent is possible.
   */
  lemma {:induction false} BaseDirIsDirectory(fs: FileSystem, d: string)
    requires WellFormed(fs) && d in fs.listing
    ensures BaseDir(fs, d) in fs.listing
    ensures Descend(fs, BaseDir(fs, d)).None?
    ensures exists n: nat :: DescendN(fs, d, n) == Some(BaseDir(fs, d))
    decreases |Deeper(fs, d)|
  {
    match Descend(fs, d)
    case None =>
      assert DescendN(fs, d, 0) == Some(d);
    case Some(next) =>
      SoleEntryLonger(fs, d);
      DeeperShrinks(fs, d, next);
      BaseDirIsDirectory(fs, next);
      var b := BaseDir(fs, next);
      assert BaseDir(fs, d) == b;
      var n: nat :| DescendN(fs, next, n) == Some(b);
      assert DescendN(fs, d, n + 1) == DescendN(fs, next, n);
  }

  /**
   * The source differs from the intended resolver only at the end of the
   * descent: exactly when the directory reached has a single entry that is
   * not a directory, it returns that entry's path instead of the directory.
   */
  lemma {:induction false} AsWrittenVsCorrected(fs: FileSystem, d: string)
    requires WellFormed(fs) && d in fs.listing
    ensures var b := BaseDir(fs, d);
      BaseDirAsWritten(fs, d) == if SoleEntry(fs, b).Some? then SoleEntry(fs, b).value else b
    decreases |Deeper(fs, d)|
  {
    match SoleEntry(fs, d)
    case None =>
    case Some(next) =>
      if IsDir(fs, next) {
        SoleEntryLonger(fs, d);
        DeeperShrinks(fs, d, next);
        AsWrittenVsCorrected(fs, next);
      }
  }

  /** A directory whose only entry is a file: the source returns the file's path. */
  lemma SoleFileReturned()
    ensures var fs := FileSystem(map["/src" := ["foo"]], {"/src/foo"});
      WellFormed(fs) && BaseDirAsWritten(fs, "/src") == "/src/foo"
      && !IsDir(fs, "/src/foo") && BaseDir(fs, "/src") == "/src"
  {
    var fs := FileSystem(map["/src" := ["foo"]], {"/src/foo"});
    assert Purged(fs.listing["/src"]) == ["foo"];
    assert JoinPath("/src", "foo") == "/src/foo";
  }

  /**
   * `findBaseDir`, started in the working directory `start`: descends
   * while the purged listing has exactly one entry, stopping (with that
   * entry's path) when the entry is not a directory. It also returns the
   * working directory it leaves the process in, the last one it entered.
   */
  method FindBaseDir(fs: FileSystem, start: string) returns (newDir: string, cwd: string)
    requires WellFormed(fs) && start in fs.listing
    ensures newDir == BaseDirAsWritten(fs, start)
    ensures cwd == BaseDir(fs, start)
  {
    cwd := start;
    var lst := Purged(fs.listing[cwd]);
    newDir := cwd;
    while |lst| == 1
      invariant cwd in fs.listing && lst == Purged(fs.listing[cwd]) && newDir == cwd
      invariant BaseDirAsWritten(fs, start) == BaseDirAsWritten(fs, cwd)
      invariant BaseDir(fs, start) == BaseDir(fs, cwd)
      decreases |Deeper(fs, cwd)|
    {
      newDir := JoinPath(cwd, lst[0]);
      if !IsDir(fs, newDir) {
        break;
      }
      SoleEntryLonger(fs, cwd);
      DeeperShrinks(fs, cwd, newDir);
      cwd := newDir;
      lst := Purged(fs.listing[cwd]);
    }
  }
}
