/**
 * Archive Inspector: `extractCmd` in easybuild/tools/filetools.py maps a
 * source file name to the shell command that unpacks it, by its
 * lower-cased dot-separated suffix tokens.
 */
module Archive {
  import opened Wrappers
  import opened Strings

  /** The lower-cased tokens of `fn.split('.')`. */
  function Tokens(fn: string): (ff: seq<string>)
    ensures |ff| == |Split(fn, '.')| && |ff| >= 1
    ensures forall k :: 0 <= k < |ff| ==> ff[k] == Lower(Split(fn, '.')[k])
  {
    var parts := Split(fn, '.');
    seq(|parts|, k requires 0 <= k < |parts| => Lower(parts[k]))
  }

  /** Every command prefix the inspector can produce. */
  const Templates: set<string> :=
    {"gunzip ", "tar xzf ", "bunzip2 ", "tar xjf ", "tar xfj ", "tar xf ", "unzip -qq -o ", "unzip -qq "}

  /**
   * The extraction command for `fn`. The suffix rules are applied one after
   * the other, each overriding the previous one when it applies; no rule
   * applying is `UnknownFormat`. A name that is just `gz` or `bz2` (no dot)
   * reaches `ff[-2]` on a one-element list, which is an IndexError in the
   * source.
   */
  function ExtractCmd(fn: string, overwrite: bool): (r: Result<string, Error>)
    ensures r.Success? ==> exists t :: t in Templates && r.value == t + fn
    ensures r.Failure? ==> r.error == UnknownFormat(fn) || (r.error == IndexOutOfRange && '.' !in fn)
  {
    var ff := Tokens(fn);
    var last := ff[|ff| - 1];
    if (last == "gz" || last == "bz2") && |ff| < 2 then
      SplitWithoutDot(fn);
      Failure(IndexOutOfRange)
    else
      var ftype0: Option<string> := None;
      var ftype1 := if last == "gz" then Some(if ff[|ff| - 2] == "tar" then "tar xzf " else "gunzip ") else ftype0;
      var ftype2 := if last == "tgz" || last == "gtgz" then Some("tar xzf ") else ftype1;
      var ftype3 := if last == "bz2" then Some(if ff[|ff| - 2] == "tar" then "tar xjf " else "bunzip2 ") else ftype2;
      var ftype4 := if last == "tbz" then Some("tar xfj ") else ftype3;
      var ftype5 := if last == "tar" then Some("tar xf ") else ftype4;
      var ftype6 := if last == "zip" then Some(if overwrite then "unzip -qq -o " else "unzip -qq ") else ftype5;
      match ftype6
      case None => Failure(UnknownFormat(fn))
      case Some(t) => Success(t + fn)
  }

  /** A name with a single token has no dot. */
  lemma SplitWithoutDot(fn: string)
    requires |Split(fn, '.')| < 2
    ensures '.' !in fn
  {
    JoinSplit(fn, '.');
  }

  /** The tokens of a name whose last two tokens are `x` and `y`. */
  lemma LastTwoTokens(pre: string, x: string, y: string)
    requires pre == [] || pre[|pre| - 1] == '.'
    requires '.' !in x && '.' !in y
    ensures var ff := Tokens(pre + x + "." + y);
      |ff| >= 2 && ff[|ff| - 1] == Lower(y) && ff[|ff| - 2] == Lower(x)
  {
    SplitLastPiece(pre, x, '.');
    SplitWithout(y, '.');
    SplitAround(pre + x, '.', y);
    assert pre + x + "." + y == pre + x + ['.'] + y;
  }

  /** The last token of a name `pre + y`. */
  lemma LastToken(pre: string, y: string)
    requires pre == [] || pre[|pre| - 1] == '.'
    requires '.' !in y
    ensures var ff := Tokens(pre + y);
      ff[|ff| - 1] == Lower(y) && (|ff| == 1 <==> pre == [])
  {
    SplitLastPiece(pre, y, '.');
  }

  /**
   * `.gz` and `.bz2`: `gunzip` or `bunzip2`, unless the token before is
   * `tar` (in any case), which makes it a compressed tarball.
   */
  lemma {:induction false} CompressedCommand(pre: string, x: string, y: string, overwrite: bool)
    requires pre == [] || pre[|pre| - 1] == '.'
    requires '.' !in x && '.' !in y && (Lower(y) == "gz" || Lower(y) == "bz2")
    ensures var fn := pre + x + "." + y;
      var tarball := Lower(x) == "tar";
      ExtractCmd(fn, overwrite) == Success(
        if Lower(y) == "gz" then (if tarball then "tar xzf " else "gunzip ") + fn
        else (if tarball then "tar xjf " else "bunzip2 ") + fn)
  {
    LastTwoTokens(pre, x, y);
  }

  /**
   * The single-token rules, as a table indexed by the lower-cased last
   * token: `tgz`/`gtgz`, `tbz`, `tar`, `zip` (with `-o` exactly when
   * overwriting), and `UnknownFormat` for anything else.
   */
  lemma {:induction false} SuffixTable(pre: string, y: string, overwrite: bool)
    requires pre == [] || pre[|pre| - 1] == '.'
    requires '.' !in y && Lower(y) != "gz" && Lower(y) != "bz2"
    ensures var fn := pre + y;
      ExtractCmd(fn, overwrite) ==
        match Lower(y)
        case "tgz" => Success("tar xzf " + fn)
        case "gtgz" => Success("tar xzf " + fn)
        case "tbz" => Success("tar xfj " + fn)
        case "tar" => Success("tar xf " + fn)
        case "zip" => Success((if overwrite then "unzip -qq -o " else "unzip -qq ") + fn)
        case _ => Failure(UnknownFormat(fn))
  {
    LastToken(pre, y);
  }

  /** A bare `gz` or `bz2` name (no dot) fails on the missing second-to-last token. */
  lemma {:induction false} BareCompressedName(y: string, overwrite: bool)
    requires '.' !in y && (Lower(y) == "gz" || Lower(y) == "bz2")
    ensures ExtractCmd(y, overwrite) == Failure(IndexOutOfRange)
  {
    LastToken([], y);
    assert [] + y == y;
  }
}
