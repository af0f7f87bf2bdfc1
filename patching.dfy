/**
 * Patch Applicator: `patch` in easybuild/tools/filetools.py. Checks its
 * inputs, then either copies the patch file or works out the strip level
 * from the `+++` lines of the unified diff and runs `patch -b -p<level>`.
 */
module Patching {
  import opened Wrappers
  import opened Strings
  import opened Paths
  import opened RunCmd

  /** The longest prefix of `s` without whitespace (`\S+` when non-empty). */
  function TakeNonSpace(s: string): (r: string)
    ensures StartsWith(s, r)
    ensures forall k :: 0 <= k < |r| ==> !IsSpace(r[k])
    ensures |r| == |s| || IsSpace(s[|r|])
  {
    if s == [] || IsSpace(s[0]) then [] else [s[0]] + TakeNonSpace(s[1..])
  }

  /** `k` is the first position of `s` that is not whitespace. */
  predicate FirstNonSpace(s: string, k: int) {
    0 <= k < |s| && !IsSpace(s[k]) && forall j :: 0 <= j < k ==> IsSpace(s[j])
  }

  /** The first whitespace-free token of `s` (`\s*(\S+)`), if any. */
  function FirstToken(s: string): (r: Option<string>)
    ensures r.Some? ==> r.value != [] && forall k :: 0 <= k < |r.value| ==> !IsSpace(r.value[k])
    ensures r.None? <==> forall k :: 0 <= k < |s| ==> IsSpace(s[k])
    ensures r.Some? ==> exists k :: FirstNonSpace(s, k) && r.value == TakeNonSpace(s[k..])
  {
    if s == [] then None
    else if IsSpace(s[0]) then
      var r := FirstToken(s[1..]);
      assert r.Some? ==> exists k :: FirstNonSpace(s, k) && r.value == TakeNonSpace(s[k..]) by {
        if r.Some? {
          var k :| FirstNonSpace(s[1..], k) && r.value == TakeNonSpace(s[1..][k..]);
          assert s[1..][k..] == s[k + 1..];
          assert FirstNonSpace(s, k + 1);
        }
      }
      r
    else
      assert FirstNonSpace(s, 0) && s[0..] == s;
      Some(TakeNonSpace(s))
  }

  /** The file named by a line matching `^\s*\+\+\+\s+(?P<file>\S+)`. */
  function PlusFile(line: string): (r: Option<string>)
    ensures r.Some? ==> r.value != [] && forall k :: 0 <= k < |r.value| ==> !IsSpace(r.value[k])
  {
    if line == [] then None
    else if IsSpace(line[0]) then PlusFile(line[1..])
    else if StartsWith(line, "+++") && |line| > 3 && IsSpace(line[3]) then FirstToken(line[3..])
    else None
  }

  /** Leading whitespace does not change the first token. */
  lemma {:induction false} FirstTokenAfterSpace(w: string, s: string)
    requires forall k :: 0 <= k < |w| ==> IsSpace(w[k])
    ensures FirstToken(w + s) == FirstToken(s)
  {
    if w == [] {
      assert w + s == s;
    } else {
      var ws := w + s;
      assert ws[0] == w[0] && IsSpace(ws[0]) && ws[1..] == w[1..] + s;
      assert FirstToken(ws) == FirstToken(ws[1..]);
      FirstTokenAfterSpace(w[1..], s);
    }
  }

  /** Leading whitespace does not change the `+++` file of a line. */
  lemma {:induction false} PlusFileAfterSpace(w: string, s: string)
    requires forall k :: 0 <= k < |w| ==> IsSpace(w[k])
    ensures PlusFile(w + s) == PlusFile(s)
  {
    if w == [] {
      assert w + s == s;
    } else {
      PlusFileAfterSpace(w[1..], s);
      assert (w + s)[1..] == w[1..] + s;
    }
  }

  /** A whitespace-free word ended by whitespace or by the end is taken whole. */
  lemma {:induction false} TakeNonSpaceOf(f: string, t: string)
    requires forall k :: 0 <= k < |f| ==> !IsSpace(f[k])
    requires t == [] || IsSpace(t[0])
    ensures TakeNonSpace(f + t) == f
  {
    if f == [] {
      assert f + t == t;
    } else {
      TakeNonSpaceOf(f[1..], t);
      assert (f + t)[1..] == f[1..] + t;
    }
  }

  /** Whitespace, then a word ended by whitespace or the end: the word is the first token. */
  lemma FirstTokenOfWord(sp: string, f: string, t: string)
    requires forall k :: 0 <= k < |sp| ==> IsSpace(sp[k])
    requires f != [] && forall k :: 0 <= k < |f| ==> !IsSpace(f[k])
    requires t == [] || IsSpace(t[0])
    ensures FirstToken(sp + (f + t)) == Some(f)
  {
    FirstTokenAfterSpace(sp, f + t);
    assert FirstToken(f + t) == Some(TakeNonSpace(f + t)) by {
      assert (f + t)[0] == f[0];
    }
    TakeNonSpaceOf(f, t);
  }

  /** An unindented `+++` line names the first token after the `+++` and its whitespace. */
  lemma PlusLine(after: string)
    requires after != [] && IsSpace(after[0])
    ensures PlusFile("+++" + after) == FirstToken(after)
  {
    var line := "+++" + after;
    assert line[..3] == "+++" && line[3..] == after && line[3] == after[0];
  }

  /**
   * A line made of optional indentation, `+++`, whitespace and a file name
   * ended by whitespace or the line end names that file.
   */
  lemma PlusFileOf(w: string, sp: string, f: string, t: string)
    requires forall k :: 0 <= k < |w| ==> IsSpace(w[k])
    requires sp != [] && forall k :: 0 <= k < |sp| ==> IsSpace(sp[k])
    requires f != [] && forall k :: 0 <= k < |f| ==> !IsSpace(f[k])
    requires t == [] || IsSpace(t[0])
    ensures PlusFile(w + "+++" + sp + f + t) == Some(f)
  {
    var after := sp + (f + t);
    assert w + "+++" + sp + f + t == w + ("+++" + after);
    PlusFileAfterSpace(w, "+++" + after);
    assert after[0] == sp[0];
    PlusLine(after);
    FirstTokenOfWord(sp, f, t);
  }

  /**
   * A line that, past its indentation, does not start with `+++` followed
   * by whitespace names no file.
   */
  lemma PlusFileNone(w: string, rest: string)
    requires forall k :: 0 <= k < |w| ==> IsSpace(w[k])
    requires rest == [] || !IsSpace(rest[0])
    requires !(StartsWith(rest, "+++") && |rest| > 3 && IsSpace(rest[3]))
    ensures PlusFile(w + rest) == None
  {
    PlusFileAfterSpace(w, rest);
  }

  /** The values `find` yields on `lines`, in order (a search kept only where it matched). */
  function Found(lines: seq<string>, find: string -> Option<string>): (r: seq<string>)
    ensures |r| <= |lines|
  {
    if lines == [] then []
    else
      match find(lines[0])
      case Some(f) => [f] + Found(lines[1..], find)
      case None => Found(lines[1..], find)
  }

  lemma {:induction false} FoundAppend(lines: seq<string>, l: string, find: string -> Option<string>)
    ensures Found(lines + [l], find) == Found(lines, find) + (if find(l).Some? then [find(l).value] else [])
  {
    if lines == [] {
      assert lines + [l] == [l];
      assert [l][1..] == [];
    } else {
      FoundAppend(lines[1..], l, find);
      assert (lines + [l])[1..] == lines[1..] + [l];
      assert (lines + [l])[0] == lines[0];
    }
  }

  /** The `+++` files of the patch, in file order. */
  function PlusFiles(lines: seq<string>): seq<string> {
    Found(lines, PlusFile)
  }

  /** The reading loop: every line of the patch, searched for a `+++` file. */
  method CollectPlusLines(lines: seq<string>) returns (plusLines: seq<string>)
    ensures plusLines == PlusFiles(lines)
  {
    plusLines := [];
    var i := 0;
    while i < |lines|
      invariant 0 <= i <= |lines|
      invariant plusLines == Found(lines[..i], PlusFile)
    {
      FoundAppend(lines[..i], lines[i], PlusFile);
      assert lines[..i + 1] == lines[..i] + [lines[i]];
      var found := PlusFile(lines[i]);
      if found.Some? {
        plusLines := plusLines + [found.value];
      }
      i := i + 1;
    }
    assert lines[..i] == lines;
  }

  /** `f` with its first `i` path segments stripped, as `'/'.join(f.split('/')[i:])`. */
  function Stripped(f: string, i: nat): string
    requires i <= |Split(f, '/')|
  {
    Join(Split(f, '/')[i..], "/")
  }

  /** Stripping `i` segments of `f` names an existing file under `dir`. */
  predicate HitsAt(fs: FileSystem, dir: string, f: string, i: nat) {
    i < |Split(f, '/')| && IsFile(fs, AbsPath(dir, Stripped(f, i)))
  }

  /** The smallest strip depth, from `i` on, at which `f` resolves. */
  function FirstHit(fs: FileSystem, dir: string, f: string, i: nat): (r: Option<nat>)
    ensures r.Some? ==> i <= r.value && HitsAt(fs, dir, f, r.value)
    ensures r.Some? ==> forall d: nat :: i <= d < r.value ==> !HitsAt(fs, dir, f, d)
    ensures r.None? ==> forall d: nat :: i <= d ==> !HitsAt(fs, dir, f, d)
    decreases |Split(f, '/')| - i
  {
    if i >= |Split(f, '/')| then None
    else if IsFile(fs, AbsPath(dir, Stripped(f, i))) then Some(i)
    else FirstHit(fs, dir, f, i + 1)
  }

  /** The level fixed by the first `+++` file that resolves at any depth. */
  function GuessedLevel(fs: FileSystem, dir: string, plus: seq<string>): Option<nat> {
    if plus == [] then None
    else match FirstHit(fs, dir, plus[0], 0)
      case Some(p) => Some(p)
      case None => GuessedLevel(fs, dir, plus[1..])
  }

  /**
   * `plus[j]` is the first `+++` file that resolves at all, and `p` is the
   * smallest depth at which it does.
   */
  ghost predicate FirstResolved(fs: FileSystem, dir: string, plus: seq<string>, j: int, p: nat) {
    && 0 <= j < |plus|
    && p < |Split(plus[j], '/')|
    && HitsAt(fs, dir, plus[j], p)
    && (forall d: nat :: d < p ==> !HitsAt(fs, dir, plus[j], d))
    && (forall k, d: nat :: 0 <= k < j ==> !HitsAt(fs, dir, plus[k], d))
  }

  /**
   * The guessed level is the smallest depth at which the first resolvable
   * `+++` file exists, it is below that file's segment count, later lines
   * play no part; there is none exactly when no line resolves at any depth.
   */
  lemma {:induction false} GuessedLevelSpec(fs: FileSystem, dir: string, plus: seq<string>)
    ensures GuessedLevel(fs, dir, plus).None?
        <==> forall j, d: nat :: 0 <= j < |plus| ==> !HitsAt(fs, dir, plus[j], d)
    ensures GuessedLevel(fs, dir, plus).Some?
        ==> exists j :: FirstResolved(fs, dir, plus, j, GuessedLevel(fs, dir, plus).value)
  {
    if plus != [] {
      match FirstHit(fs, dir, plus[0], 0)
      case Some(p) =>
        assert FirstResolved(fs, dir, plus, 0, p);
      case None =>
        GuessedLevelSpec(fs, dir, plus[1..]);
        var g := GuessedLevel(fs, dir, plus[1..]);
        if g.Some? {
          var j :| FirstResolved(fs, dir, plus[1..], j, g.value);
          assert FirstResolved(fs, dir, plus, j + 1, g.value) by {
            forall k, d: nat | 0 <= k < j + 1
              ensures !HitsAt(fs, dir, plus[k], d)
            {
              if k > 0 {
                assert plus[k] == plus[1..][k - 1];
              }
            }
          }
        } else {
          forall j, d: nat | 0 <= j < |plus|
            ensures !HitsAt(fs, dir, plus[j], d)
          {
            if j > 0 {
              assert plus[j] == plus[1..][j - 1];
            }
          }
        }
    }
  }

  /** The nested guessing loops: lines in order, strip depths `0..n-1` per line. */
  method GuessLevel(fs: FileSystem, dir: string, plus: seq<string>) returns (p: Option<nat>)
    ensures p == GuessedLevel(fs, dir, plus)
  {
    p := None;
    var j := 0;
    while j < |plus|
      invariant 0 <= j <= |plus|
      invariant GuessedLevel(fs, dir, plus) == GuessedLevel(fs, dir, plus[j..])
    {
      var f := plus[j];
      var tf2 := Split(f, '/');
      var n := |tf2|;
      var plusFound := false;
      var i := 0;
      while i < n
        invariant 0 <= i <= n
        invariant FirstHit(fs, dir, f, 0) == FirstHit(fs, dir, f, i)
      {
        if IsFile(fs, AbsPath(dir, Join(tf2[i..], "/"))) {
          plusFound := true;
          break;
        }
        i := i + 1;
      }
      assert plus[j..][0] == f && plus[j..][1..] == plus[j + 1..];
      if plusFound {
        return Some(i);
      }
      j := j + 1;
    }
  }

  /** The command `"patch -b -p%d -i %s" % (p, apatch)`. */
  function PatchCommand(p: int, apatch: string): string {
    "patch -b -p" + IntToString(p) + " -i " + apatch
  }

  /** The leading run of decimal digits of `s`. */
  function TakeDigits(s: string): (r: string)
    ensures StartsWith(s, r)
  {
    if s == [] || !('0' <= s[0] <= '9') then [] else [s[0]] + TakeDigits(s[1..])
  }

  lemma {:induction false} TakeDigitsOf(d: string, rest: string)
    requires forall k :: 0 <= k < |d| ==> '0' <= d[k] <= '9'
    requires rest != [] && !('0' <= rest[0] <= '9')
    ensures TakeDigits(d + rest) == d
  {
    if d != [] {
      TakeDigitsOf(d[1..], rest);
      assert (d + rest)[1..] == d[1..] + rest;
    } else {
      assert d + rest == rest;
    }
  }

  /** Reads the level and the patch path back out of a patch command. */
  function ParsePatchCommand(cmd: string): Option<(nat, string)> {
    var prefix := "patch -b -p";
    if StartsWith(cmd, prefix) then
      var rest := cmd[|prefix|..];
      var digits := TakeDigits(rest);
      if digits != [] && StartsWith(rest[|digits|..], " -i ") then
        Some((DecimalValue(digits), rest[|digits| + 4..]))
      else None
    else None
  }

  /** The command text around a leading run of digits reads back as its value and the path. */
  lemma ParseBuiltCommand(digits: string, apatch: string)
    requires digits != [] && TakeDigits(digits + (" -i " + apatch)) == digits
    ensures ParsePatchCommand("patch -b -p" + digits + " -i " + apatch) == Some((DecimalValue(digits), apatch))
  {
    var prefix, flag := "patch -b -p", " -i ";
    var tail := flag + apatch;
    var rest := digits + tail;
    assert prefix + digits + flag + apatch == prefix + rest;
    AfterPrefix(prefix, rest);
    AfterPrefix(digits, tail);
    AfterPrefix(flag, apatch);
    assert rest[|digits| + 4..] == tail[4..];
  }

  /** A concatenation starts with its first part, and dropping that part leaves the second. */
  lemma AfterPrefix(p: string, rest: string)
    ensures StartsWith(p + rest, p) && (p + rest)[|p|..] == rest
  {
    assert (p + rest)[..|p|] == p;
  }

  /** A command built for a non-negative level gives back that level and path. */
  lemma PatchCommandRoundTrip(p: nat, apatch: string)
    ensures ParsePatchCommand(PatchCommand(p, apatch)) == Some((p, apatch))
  {
    TakeDigitsOf(NatToString(p), " -i " + apatch);
    ParseBuiltCommand(NatToString(p), apatch);
    DecimalRoundTrip(p);
  }

  /** Whether a strip level is guessed: the source also guesses for an explicit level 0. */
  predicate GuessesAsWritten(level: Option<int>) {
    level.None? || level.value == 0
  }

  /** The strip level to use. */
  function LevelFrom(guess: bool, level: Option<int>, fs: FileSystem, adest: string, plus: seq<string>,
                     patchFile: string): Result<int, Error>
    requires !guess ==> level.Some?
  {
    if !guess then Success(level.value)
    else if plus == [] then Failure(PatchLevelUndetermined(patchFile))
    else match GuessedLevel(fs, adest, plus)
      case None => Failure(PatchLevelUndetermined(patchFile))
      case Some(p) => Success(p)
  }

  /** The source's level selection, in which `level=0` counts as no level. */
  function LevelAsWritten(level: Option<int>, fs: FileSystem, adest: string, plus: seq<string>,
                          patchFile: string): (r: Result<int, Error>)
    ensures !GuessesAsWritten(level) ==> r == Success(level.value)
    ensures GuessesAsWritten(level) && r.Success? ==> r.value >= 0
  {
    LevelFrom(GuessesAsWritten(level), level, fs, adest, plus, patchFile)
  }

  /** The intended level selection: only a missing level is guessed. */
  function Level(level: Option<int>, fs: FileSystem, adest: string, plus: seq<string>,
                 patchFile: string): (r: Result<int, Error>)
    ensures level.Some? ==> r == Success(level.value)
    ensures level.None? && r.Success? ==> r.value >= 0
  {
    LevelFrom(level.None?, level, fs, adest, plus, patchFile)
  }

  /**
   * An explicit level 0 is replaced by the guess in the source: with
   * `+++ x/y/z` where only `y/z` exists, `-p1` is used where `-p0` was asked.
   */
  lemma ExplicitZeroIgnored(fs: FileSystem, dir: string, x: string, y: string, z: string, patchFile: string)
    requires '/' !in x && '/' !in y && '/' !in z
    requires !IsFile(fs, AbsPath(dir, x + "/" + y + "/" + z))
    requires IsFile(fs, AbsPath(dir, y + "/" + z))
    ensures LevelAsWritten(Some(0), fs, dir, [x + "/" + y + "/" + z], patchFile) == Success(1)
    ensures Level(Some(0), fs, dir, [x + "/" + y + "/" + z], patchFile) == Success(0)
  {
    ExampleLevelOne(fs, dir, x, y, z, []);
    assert [x + "/" + y + "/" + z] + [] == [x + "/" + y + "/" + z];
  }

  lemma {:induction false} ThreeSegments(x: string, y: string, z: string)
    requires '/' !in x && '/' !in y && '/' !in z
    ensures Split(x + "/" + y + "/" + z, '/') == [x, y, z]
    ensures Join([x, y, z], "/") == x + "/" + y + "/" + z
    ensures Join([y, z], "/") == y + "/" + z
  {
    SplitThree(x, y, z);
    JoinThree(x, y, z);
  }

  lemma {:induction false} SplitThree(x: string, y: string, z: string)
    requires '/' !in x && '/' !in y && '/' !in z
    ensures Split(x + "/" + y + "/" + z, '/') == [x, y, z]
  {
    var yz := y + ['/'] + z;
    assert Split(yz, '/') == [y, z] by {
      SplitAround(y, '/', z);
      SplitWithout(y, '/');
      SplitWithout(z, '/');
    }
    assert Split(x + ['/'] + yz, '/') == [x, y, z] by {
      SplitAround(x, '/', yz);
      SplitWithout(x, '/');
    }
    assert x + "/" + y + "/" + z == x + ['/'] + yz by {
      assert "/" == ['/'];
    }
  }

  lemma {:induction false} JoinThree(x: string, y: string, z: string)
    ensures Join([x, y, z], "/") == x + "/" + y + "/" + z
    ensures Join([y, z], "/") == y + "/" + z
  {
    assert [x, y, z][1..] == [y, z];
    assert [y, z][1..] == [z];
    assert Join([z], "/") == z;
    assert Join([y, z], "/") == y + "/" + z;
    assert Join([x, y, z], "/") == x + "/" + (y + "/" + z);
  }

  /**
   * A `+++ x/y/z` line whose `y/z` exists in the target directory but whose
   * `x/y/z` does not gives level 1 (the usual `a/` and `b/` prefixes of git diffs).
   */
  lemma ExampleLevelOne(fs: FileSystem, dir: string, x: string, y: string, z: string, rest: seq<string>)
    requires '/' !in x && '/' !in y && '/' !in z
    requires !IsFile(fs, AbsPath(dir, x + "/" + y + "/" + z))
    requires IsFile(fs, AbsPath(dir, y + "/" + z))
    ensures GuessedLevel(fs, dir, [x + "/" + y + "/" + z] + rest) == Some(1)
  {
    var f := x + "/" + y + "/" + z;
    ThreeSegments(x, y, z);
    assert Split(f, '/')[1..] == [y, z];
    assert !HitsAt(fs, dir, f, 0);
    assert HitsAt(fs, dir, f, 1);
    assert FirstHit(fs, dir, f, 1) == Some(1);
    assert ([f] + rest)[0] == f;
  }

  datatype PatchRequest = PatchRequest(patchFile: string, dest: string, fn: Option<string>, copy: bool,
                                       level: Option<int>)

  datatype PatchDone = Copied | Applied(cmd: string)

  /**
   * What `patch` decides before running anything: the input checks, copy
   * mode, then the command with the chosen level and absolute patch path.
   */
  function PatchPlan(req: PatchRequest, fs: FileSystem, cwd: string, lines: seq<string>): Result<PatchDone, Error> {
    if !IsFile(fs, AbsPath(cwd, req.patchFile)) then Failure(MissingFile(req.patchFile))
    else if req.fn.Some? && req.fn.value != [] && !IsFile(fs, AbsPath(cwd, req.fn.value)) then
      Failure(MissingFile(req.fn.value))
    else if !IsDir(fs, AbsPath(cwd, req.dest)) then Failure(MissingDirectory(req.dest))
    else if req.copy then Success(Copied)
    else
      var apatch := AbsPath(cwd, req.patchFile);
      var adest := AbsPath(cwd, req.dest);
      match LevelAsWritten(req.level, fs, adest, PlusFiles(lines), req.patchFile)
      case Failure(e) => Failure(e)
      case Success(p) => Success(Applied(PatchCommand(p, apatch)))
  }

  /** The inputs `patch` checks before doing anything. */
  predicate InputsPresent(req: PatchRequest, fs: FileSystem, cwd: string) {
    && IsFile(fs, AbsPath(cwd, req.patchFile))
    && (req.fn.Some? && req.fn.value != [] ==> IsFile(fs, AbsPath(cwd, req.fn.value)))
    && IsDir(fs, AbsPath(cwd, req.dest))
  }

  /**
   * Without a level (or with level 0), a patch with no `+++` line, or none
   * that resolves at any depth, fails before any command is built.
   */
  lemma {:induction false} UnresolvedPatchFails(req: PatchRequest, fs: FileSystem, cwd: string, lines: seq<string>)
    requires InputsPresent(req, fs, cwd) && !req.copy && GuessesAsWritten(req.level)
    requires forall j, d: nat :: 0 <= j < |PlusFiles(lines)| ==> !HitsAt(fs, AbsPath(cwd, req.dest), PlusFiles(lines)[j], d)
    ensures PatchPlan(req, fs, cwd, lines) == Failure(PatchLevelUndetermined(req.patchFile))
  {
    GuessedLevelSpec(fs, AbsPath(cwd, req.dest), PlusFiles(lines));
  }

  /** A given non-zero level is used unchanged, with the absolute patch path. */
  lemma ExplicitLevelCommand(req: PatchRequest, fs: FileSystem, cwd: string, lines: seq<string>)
    requires InputsPresent(req, fs, cwd) && !req.copy && req.level.Some? && req.level.value != 0
    ensures PatchPlan(req, fs, cwd, lines)
         == Success(Applied("patch -b -p" + IntToString(req.level.value) + " -i " + AbsPath(cwd, req.patchFile)))
  {
  }

  /** As written, asking for level 0 plans exactly what asking for no level does. */
  lemma ZeroLevelGuesses(req: PatchRequest, fs: FileSystem, cwd: string, lines: seq<string>)
    ensures PatchPlan(req.(level := Some(0)), fs, cwd, lines) == PatchPlan(req.(level := None), fs, cwd, lines)
  {
  }

  /**
   * Without a level (or with level 0), the command carries the level of the
   * first resolvable `+++` file, and that level can be read back from the
   * command.
   */
  lemma {:induction false} GuessedLevelCommand(req: PatchRequest, fs: FileSystem, cwd: string, lines: seq<string>)
    requires InputsPresent(req, fs, cwd) && !req.copy && GuessesAsWritten(req.level)
    requires PatchPlan(req, fs, cwd, lines).Success?
    ensures var plus := PlusFiles(lines);
      var adest := AbsPath(cwd, req.dest);
      && GuessedLevel(fs, adest, plus).Some?
      && (exists j :: FirstResolved(fs, adest, plus, j, GuessedLevel(fs, adest, plus).value))
      && PatchPlan(req, fs, cwd, lines).value.Applied?
      && ParsePatchCommand(PatchPlan(req, fs, cwd, lines).value.cmd)
         == Some((GuessedLevel(fs, adest, plus).value, AbsPath(cwd, req.patchFile)))
  {
    var plus := PlusFiles(lines);
    var adest := AbsPath(cwd, req.dest);
    GuessedLevelSpec(fs, adest, plus);
    PatchCommandRoundTrip(GuessedLevel(fs, adest, plus).value, AbsPath(cwd, req.patchFile));
  }

  /**
   * `patch`: the plan, then (when there is a command) `run_cmd(cmd,
   * simple=True)` on it, whose failure or `False` fails the patch. The
   * diagnostic counter of the run's error scan is threaded through, and
   * `cwdAfter` is the working directory the call leaves the process in:
   * the destination once the input checks pass outside copy mode.
   */
  method Patch(req: PatchRequest, fs: FileSystem, cwd: string, lines: seq<string>,
               execute: string -> Execution, search: Matcher, errorsFound: nat)
    returns (r: Result<PatchDone, Error>, count: nat, cwdAfter: string)
    ensures cwdAfter == if InputsPresent(req, fs, cwd) && !req.copy then AbsPath(cwd, req.dest) else cwd
    ensures PatchPlan(req, fs, cwd, lines).Failure? || PatchPlan(req, fs, cwd, lines) == Success(Copied)
            ==> r == PatchPlan(req, fs, cwd, lines) && count == errorsFound
    ensures PatchPlan(req, fs, cwd, lines).Success? && PatchPlan(req, fs, cwd, lines).value.Applied? ==>
      var cmd := PatchPlan(req, fs, cwd, lines).value.cmd;
      var run := FinishRun(cmd, execute(cmd).output, execute(cmd).exitCode, true, true, false);
      && r == (if run.Failure? then Failure(run.error)
               else if run.value == Succeeded(false) then Failure(PatchFailed(req.patchFile))
               else Success(Applied(cmd)))
      && count == (if run.Failure? then errorsFound
                   else errorsFound + |MatchingLines(Split(execute(cmd).output, '\n'), PatternOf(DefaultPattern), search)|)
  {
    count := errorsFound;
    cwdAfter := cwd;
    if !IsFile(fs, AbsPath(cwd, req.patchFile)) {
      return Failure(MissingFile(req.patchFile)), count, cwdAfter;
    }
    if req.fn.Some? && req.fn.value != [] && !IsFile(fs, AbsPath(cwd, req.fn.value)) {
      return Failure(MissingFile(req.fn.value)), count, cwdAfter;
    }
    if !IsDir(fs, AbsPath(cwd, req.dest)) {
      return Failure(MissingDirectory(req.dest)), count, cwdAfter;
    }
    if req.copy {
      return Success(Copied), count, cwdAfter;
    }
    var apatch := AbsPath(cwd, req.patchFile);
    var adest := AbsPath(cwd, req.dest);
    cwdAfter := adest;
    var p: int;
    if GuessesAsWritten(req.level) {
      var plusLines := CollectPlusLines(lines);
      if plusLines == [] {
        return Failure(PatchLevelUndetermined(req.patchFile)), count, cwdAfter;
      }
      var guessed := GuessLevel(fs, adest, plusLines);
      if guessed.None? {
        return Failure(PatchLevelUndetermined(req.patchFile)), count, cwdAfter;
      }
      p := guessed.value;
    } else {
      p := req.level.value;
    }
    var cmd := PatchCommand(p, apatch);
    var ex := execute(cmd);
    var run;
    run, count := Finish(cmd, ex.output, ex.exitCode, true, true, false, ScanDefault, search, errorsFound);
    if run.Failure? {
      return Failure(run.error), count, cwdAfter;
    }
    if run.value == Succeeded(false) {
      return Failure(PatchFailed(req.patchFile)), count, cwdAfter;
    }
    r := Success(Applied(cmd));
  }
}
