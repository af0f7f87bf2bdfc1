/**
 * The handful of Python `str` operations the build tools rely on, written
 * as functions over `seq<char>`: split/join, strip, prefix and suffix
 * tests, character replacement, ASCII case mapping and decimal rendering.
 */
module Strings {

  /** Python's `\s` and the default `str.strip()` set for byte strings. */
  predicate IsSpace(c: char) {
    c == ' ' || c == '\t' || c == '\n' || c == '\r' || c == '\U{0B}' || c == '\U{0C}'
  }

  predicate IsQuote(c: char) { c == '\'' || c == '"' }

  predicate StartsWith(s: string, p: string) {
    |p| <= |s| && s[..|p|] == p
  }

  predicate EndsWith(s: string, p: string) {
    |p| <= |s| && s[|s| - |p|..] == p
  }

  /** `s.split(c)`: the pieces between occurrences of `c`; always at least one. */
  function Split(s: string, c: char): (r: seq<string>)
    ensures |r| >= 1
    decreases |s|
  {
    if s == [] then [[]]
    else
      var rest := Split(s[1..], c);
      if s[0] == c then [[]] + rest else [[s[0]] + rest[0]] + rest[1..]
  }

  /** `sep.join(parts)`. */
  function Join(parts: seq<string>, sep: string): string {
    if |parts| == 0 then []
    else if |parts| == 1 then parts[0]
    else parts[0] + sep + Join(parts[1..], sep)
  }

  /** A leading separator closes an empty first piece. */
  lemma SplitSep(s: string, c: char)
    requires s != [] && s[0] == c
    ensures Split(s, c) == [[]] + Split(s[1..], c)
  {
  }

  /** Any other leading character joins the first piece of the rest. */
  lemma SplitChar(s: string, c: char)
    requires s != [] && s[0] != c
    ensures Split(s, c) == [[s[0]] + Split(s[1..], c)[0]] + Split(s[1..], c)[1..]
  {
  }

  /** Prefixing the first piece prefixes the join. */
  lemma JoinPrefixed(x: string, r: seq<string>, sep: string)
    requires |r| >= 1
    ensures Join([x + r[0]] + r[1..], sep) == x + Join(r, sep)
  {
    var t := [x + r[0]] + r[1..];
    assert t[0] == x + r[0] && t[1..] == r[1..];
    if |r| > 1 {
      assert Join(t, sep) == (x + r[0]) + sep + Join(r[1..], sep);
    }
  }

  /** Joining the pieces of a split with the separator gives back the string. */
  lemma {:induction false} JoinSplit(s: string, c: char)
    ensures Join(Split(s, c), [c]) == s
    decreases |s|
  {
    if s != [] {
      var rest := Split(s[1..], c);
      JoinSplit(s[1..], c);
      if s[0] == c {
        SplitSep(s, c);
        assert ([[]] + rest)[1..] == rest;
        assert Join([[]] + rest, [c]) == [] + [c] + Join(rest, [c]);
      } else {
        SplitChar(s, c);
        JoinPrefixed([s[0]], rest, [c]);
      }
      assert s == [s[0]] + s[1..];
    }
  }

  /** Splitting distributes over an occurrence of the separator. */
  lemma {:induction false} SplitAround(a: string, c: char, b: string)
    ensures Split(a + [c] + b, c) == Split(a, c) + Split(b, c)
    decreases |a|
  {
    var s := a + [c] + b;
    if a == [] {
      assert s == [c] + b && s[1..] == b;
      SplitSep(s, c);
    } else {
      assert s[0] == a[0] && s[1..] == a[1..] + [c] + b;
      SplitAround(a[1..], c, b);
      if a[0] == c {
        SplitAroundSep(s, a, c, Split(b, c));
      } else {
        SplitAroundChar(s, a, c, Split(b, c));
      }
    }
  }

  lemma SplitAroundSep(s: string, a: string, c: char, sb: seq<string>)
    requires s != [] && a != [] && s[0] == c && a[0] == c
    requires Split(s[1..], c) == Split(a[1..], c) + sb
    ensures Split(s, c) == Split(a, c) + sb
  {
    SplitSep(s, c);
    SplitSep(a, c);
    Regroup([[]], Split(a[1..], c), sb);
  }

  lemma Regroup(x: seq<string>, y: seq<string>, z: seq<string>)
    ensures x + (y + z) == (x + y) + z
  {
  }

  lemma SplitAroundChar(s: string, a: string, c: char, sb: seq<string>)
    requires s != [] && a != [] && s[0] == a[0] && a[0] != c
    requires Split(s[1..], c) == Split(a[1..], c) + sb
    ensures Split(s, c) == Split(a, c) + sb
  {
    SplitChar(s, c);
    SplitChar(a, c);
    PrefixFirst([a[0]], Split(a[1..], c), sb);
  }

  /** Extending the first piece commutes with appending pieces. */
  lemma PrefixFirst(h: string, sa: seq<string>, sb: seq<string>)
    requires |sa| >= 1
    ensures [h + (sa + sb)[0]] + (sa + sb)[1..] == ([h + sa[0]] + sa[1..]) + sb
  {
    assert (sa + sb)[0] == sa[0] && (sa + sb)[1..] == sa[1..] + sb;
  }

  /** A string without the separator is a single piece. */
  lemma {:induction false} SplitWithout(s: string, c: char)
    requires c !in s
    ensures Split(s, c) == [s]
    decreases |s|
  {
    if s != [] {
      assert s[0] != c && c !in s[1..];
      SplitWithout(s[1..], c);
      SplitChar(s, c);
      assert [s[0]] + s[1..] == s;
    }
  }

  /** The pieces of `pre + x`, where `pre` is empty or ends in the separator and `x` has none. */
  lemma SplitLastPiece(pre: string, x: string, c: char)
    requires pre == [] || pre[|pre| - 1] == c
    requires c !in x
    ensures Split(pre + x, c) == (if pre == [] then [x] else Split(pre[..|pre| - 1], c) + [x])
  {
    SplitWithout(x, c);
    if pre != [] {
      SplitAround(pre[..|pre| - 1], c, x);
      assert pre[..|pre| - 1] + [c] + x == pre + x;
    } else {
      assert pre + x == x;
    }
  }

  function LowerChar(c: char): char {
    if 'A' <= c <= 'Z' then (c as int + 32) as char else c
  }

  function UpperChar(c: char): char {
    if 'a' <= c <= 'z' then (c as int - 32) as char else c
  }

  /** `s.lower()` for ASCII letters. */
  function Lower(s: string): (r: string)
    ensures |r| == |s| && forall k :: 0 <= k < |s| ==> r[k] == LowerChar(s[k])
  {
    seq(|s|, k requires 0 <= k < |s| => LowerChar(s[k]))
  }

  /** `s.upper()` for ASCII letters. */
  function Upper(s: string): (r: string)
    ensures |r| == |s| && forall k :: 0 <= k < |s| ==> r[k] == UpperChar(s[k])
  {
    seq(|s|, k requires 0 <= k < |s| => UpperChar(s[k]))
  }

  /** `s.lstrip(chars)` for the characters satisfying `drop`. */
  function LStrip(s: string, drop: char -> bool): (r: string)
    ensures |r| <= |s| && r == s[|s| - |r|..]
    ensures r != [] ==> !drop(r[0])
  {
    if s == [] || !drop(s[0]) then s else LStrip(s[1..], drop)
  }

  /** Everything `LStrip` removed satisfies `drop`. */
  lemma {:induction false} LStripDropped(s: string, drop: char -> bool)
    ensures forall k :: 0 <= k < |s| - |LStrip(s, drop)| ==> drop(s[k])
    decreases |s|
  {
    if s != [] && drop(s[0]) {
      LStripDropped(s[1..], drop);
    }
  }

  /** `s.rstrip(chars)` for the characters satisfying `drop`. */
  function RStrip(s: string, drop: char -> bool): (r: string)
    ensures |r| <= |s| && r == s[..|r|]
    ensures r != [] ==> !drop(r[|r| - 1])
  {
    if s == [] || !drop(s[|s| - 1]) then s else RStrip(s[..|s| - 1], drop)
  }

  /** Everything `RStrip` removed satisfies `drop`. */
  lemma {:induction false} RStripDropped(s: string, drop: char -> bool)
    ensures forall k :: |RStrip(s, drop)| <= k < |s| ==> drop(s[k])
    decreases |s|
  {
    if s != [] && drop(s[|s| - 1]) {
      RStripDropped(s[..|s| - 1], drop);
    }
  }

  /** `r` occurs in `s` starting at index `i`. */
  predicate SliceAt(s: string, i: int, r: string) {
    0 <= i <= |s| - |r| && r == s[i..i + |r|]
  }

  /** A prefix of a suffix of `s` is a slice of `s`. */
  lemma SliceOfSuffix(s: string, l: string, r: string)
    requires |l| <= |s| && l == s[|s| - |l|..]
    requires |r| <= |l| && r == l[..|r|]
    ensures SliceAt(s, |s| - |l|, r)
  {
  }

  /** `s.strip(chars)`: the middle slice left once both ends are stripped. */
  function Strip(s: string, drop: char -> bool): (r: string)
    ensures exists i :: SliceAt(s, i, r)
    ensures r != [] ==> !drop(r[0]) && !drop(r[|r| - 1])
  {
    var l := LStrip(s, drop);
    var r := RStrip(l, drop);
    SliceOfSuffix(s, l, r);
    r
  }

  /** `s.strip()` with Python's whitespace set. */
  function Trim(s: string): string {
    Strip(s, IsSpace)
  }

  /** `s.split(c, 1)[0]`: the text before the first `c`, or all of `s`. */
  function Before(s: string, c: char): (r: string)
    ensures StartsWith(s, r) && c !in r
    ensures |r| == |s| || s[|r|] == c
  {
    if s == [] || s[0] == c then [] else [s[0]] + Before(s[1..], c)
  }

  /** `s.rsplit(c, 1)[1]`: the text after the last `c`. */
  function AfterLast(s: string, c: char): (r: string)
    requires c in s
    ensures |r| < |s| && EndsWith(s, r) && c !in r
    ensures s[|s| - |r| - 1] == c
  {
    if s[|s| - 1] == c then []
    else
      assert c in s[..|s| - 1] by {
        var k :| 0 <= k < |s| && s[k] == c;
        assert s[..|s| - 1][k] == c;
      }
      AfterLast(s[..|s| - 1], c) + [s[|s| - 1]]
  }

  /** `s.replace(c, "")` for every quote character. */
  function RemoveQuotes(s: string): (r: string)
    ensures forall k :: 0 <= k < |r| ==> !IsQuote(r[k])
  {
    if s == [] then []
    else if IsQuote(s[0]) then RemoveQuotes(s[1..])
    else [s[0]] + RemoveQuotes(s[1..])
  }

  /** `s.replace(c, rep)` for a single character `c`. */
  function ReplaceChar(s: string, c: char, rep: string): string {
    if s == [] then []
    else (if s[0] == c then rep else [s[0]]) + ReplaceChar(s[1..], c, rep)
  }

  function Count(s: string, c: char): nat {
    if s == [] then 0 else (if s[0] == c then 1 else 0) + Count(s[1..], c)
  }

  /** Replacing a character removes it, when the replacement does not reintroduce it. */
  lemma {:induction false} ReplaceCharRemoves(s: string, c: char, rep: string, d: char)
    requires d !in rep && (d == c || d !in s)
    ensures d !in ReplaceChar(s, c, rep)
  {
    if s != [] {
      ReplaceCharRemoves(s[1..], c, rep, d);
    }
  }

  /** The length grows by `|rep| - 1` for every replaced character. */
  lemma {:induction false} ReplaceCharLength(s: string, c: char, rep: string)
    ensures |ReplaceChar(s, c, rep)| == |s| + Count(s, c) * (|rep| - 1)
  {
    if s != [] {
      ReplaceCharLength(s[1..], c, rep);
    }
  }

  /** Two replacements commute when neither replacement text holds the other character. */
  lemma {:induction false} ReplaceCharCommute(s: string, c1: char, r1: string, c2: char, r2: string)
    requires c1 != c2 && c2 !in r1 && c1 !in r2
    ensures ReplaceChar(ReplaceChar(s, c1, r1), c2, r2) == ReplaceChar(ReplaceChar(s, c2, r2), c1, r1)
  {
    if s != [] {
      ReplaceCharCommute(s[1..], c1, r1, c2, r2);
      ReplaceCharDistributes(if s[0] == c1 then r1 else [s[0]], ReplaceChar(s[1..], c1, r1), c2, r2);
      ReplaceCharDistributes(if s[0] == c2 then r2 else [s[0]], ReplaceChar(s[1..], c2, r2), c1, r1);
      ReplaceCharWithout(r1, c2, r2);
      ReplaceCharWithout(r2, c1, r1);
    }
  }

  lemma {:induction false} ReplaceCharDistributes(a: string, b: string, c: char, rep: string)
    ensures ReplaceChar(a + b, c, rep) == ReplaceChar(a, c, rep) + ReplaceChar(b, c, rep)
  {
    if a != [] {
      ReplaceCharDistributes(a[1..], b, c, rep);
      assert (a + b)[1..] == a[1..] + b;
    } else {
      assert a + b == b;
    }
  }

  lemma {:induction false} ReplaceCharWithout(s: string, c: char, rep: string)
    requires c !in s
    ensures ReplaceChar(s, c, rep) == s
  {
    if s != [] {
      ReplaceCharWithout(s[1..], c, rep);
      assert s == [s[0]] + s[1..];
    }
  }

  /** The last `n` characters of `s`, as Python's `s[-n:]`. */
  function Tail(s: string, n: nat): (r: string)
    ensures |r| == if |s| < n then |s| else n
    ensures EndsWith(s, r)
  {
    if |s| <= n then s else s[|s| - n..]
  }

  function DigitChar(d: nat): char
    requires d < 10
  {
    "0123456789"[d]
  }

  function DigitValue(c: char): nat {
    if '0' <= c <= '9' then c as nat - '0' as nat else 0
  }

  /** The decimal rendering of `n`, as `"%d" % n`. */
  function NatToString(n: nat): (r: string)
    ensures |r| >= 1
    ensures forall k :: 0 <= k < |r| ==> '0' <= r[k] <= '9'
    decreases n
  {
    if n < 10 then [DigitChar(n)] else NatToString(n / 10) + [DigitChar(n % 10)]
  }

  /** The value of a string of decimal digits. */
  function DecimalValue(s: string): nat {
    if s == [] then 0 else DecimalValue(s[..|s| - 1]) * 10 + DigitValue(s[|s| - 1])
  }

  /** Reading the rendered digits back gives the number. */
  lemma {:induction false} DecimalRoundTrip(n: nat)
    ensures DecimalValue(NatToString(n)) == n
    decreases n
  {
    if n >= 10 {
      DecimalRoundTrip(n / 10);
      var s := NatToString(n);
      assert s == NatToString(n / 10) + [DigitChar(n % 10)];
      assert s[..|s| - 1] == NatToString(n / 10);
      assert DigitValue(DigitChar(n % 10)) == n % 10;
    }
  }

  /** `"%d" % i` for any integer. */
  function IntToString(i: int): (r: string)
    ensures i >= 0 ==> r == NatToString(i)
    ensures i < 0 ==> r == "-" + NatToString(-i)
  {
    if i >= 0 then NatToString(i) else "-" + NatToString(-i)
  }

  /** `s` with the leading run of whitespace removed. */
  function DropSpaces(s: string): (r: string)
    ensures |r| <= |s| && r == s[|s| - |r|..]
    ensures r != [] ==> !IsSpace(r[0])
    ensures forall k :: 0 <= k < |s| - |r| ==> IsSpace(s[k])
  {
    LStripDropped(s, IsSpace);
    LStrip(s, IsSpace)
  }

  /** `re.split(r"[\s\n]+", s)`: the pieces between maximal whitespace runs. */
  function WsSplit(s: string): (r: seq<string>)
    ensures |r| >= 1
    decreases |s|
  {
    if s == [] then [[]]
    else if IsSpace(s[0]) then [[]] + WsSplit(DropSpaces(s))
    else
      var rest := WsSplit(s[1..]);
      [[s[0]] + rest[0]] + rest[1..]
  }

  /** `s` with every whitespace character removed. */
  function RemoveSpaces(s: string): string {
    if s == [] then [] else (if IsSpace(s[0]) then [] else [s[0]]) + RemoveSpaces(s[1..])
  }

  function Concat(parts: seq<string>): string {
    if parts == [] then [] else parts[0] + Concat(parts[1..])
  }

  /** The pieces hold no whitespace. */
  lemma {:induction false} WsSplitNoSpace(s: string)
    ensures forall k, j :: 0 <= k < |WsSplit(s)| && 0 <= j < |WsSplit(s)[k]| ==> !IsSpace(WsSplit(s)[k][j])
    decreases |s|
  {
    if s == [] {
    } else if IsSpace(s[0]) {
      var d := DropSpaces(s);
      WsSplitNoSpace(d);
      assert WsSplit(s)[1..] == WsSplit(d);
    } else {
      WsSplitNoSpace(s[1..]);
      var rest := WsSplit(s[1..]);
      assert WsSplit(s)[0] == [s[0]] + rest[0];
      assert WsSplit(s)[1..] == rest[1..];
    }
  }

  /** Together the pieces are exactly the non-whitespace characters of the input, in order. */
  lemma {:induction false} WsSplitConcat(s: string)
    ensures Concat(WsSplit(s)) == RemoveSpaces(s)
    decreases |s|
  {
    if s == [] {
    } else if IsSpace(s[0]) {
      var d := DropSpaces(s);
      WsSplitConcat(d);
      WsSplitBlank(s);
      ConcatCons([], WsSplit(d));
      RemoveSpacesOfRun(s, |s| - |d|);
    } else {
      var rest := WsSplit(s[1..]);
      WsSplitConcat(s[1..]);
      WsSplitChar(s);
      ConcatCons([s[0]] + rest[0], rest[1..]);
      ConcatHead(rest);
      assert RemoveSpaces(s) == [s[0]] + RemoveSpaces(s[1..]);
    }
  }

  /** A leading whitespace run starts with an empty piece. */
  lemma WsSplitBlank(s: string)
    requires s != [] && IsSpace(s[0])
    ensures WsSplit(s) == [[]] + WsSplit(DropSpaces(s))
  {
  }

  lemma ConcatCons(p: string, parts: seq<string>)
    ensures Concat([p] + parts) == p + Concat(parts)
  {
    assert ([p] + parts)[1..] == parts;
  }

  lemma ConcatHead(parts: seq<string>)
    requires parts != []
    ensures Concat(parts) == parts[0] + Concat(parts[1..])
  {
  }

  lemma {:induction false} RemoveSpacesOfRun(s: string, n: nat)
    requires n <= |s|
    requires forall k :: 0 <= k < n ==> IsSpace(s[k])
    ensures RemoveSpaces(s) == RemoveSpaces(s[n..])
  {
    if n > 0 {
      RemoveSpacesOfRun(s[1..], n - 1);
      assert s[1..][n - 1..] == s[n..];
    }
  }

  /** A question without whitespace is a single piece. */
  lemma {:induction false} WsSplitWithout(s: string)
    requires forall k :: 0 <= k < |s| ==> !IsSpace(s[k])
    ensures WsSplit(s) == [s]
    decreases |s|
  {
    if s != [] {
      WsSplitWithout(s[1..]);
      assert s == [s[0]] + s[1..];
    }
  }

  /** One non-whitespace character joins the first piece of the rest. */
  lemma WsSplitChar(s: string)
    requires s != [] && !IsSpace(s[0])
    ensures WsSplit(s) == [[s[0]] + WsSplit(s[1..])[0]] + WsSplit(s[1..])[1..]
  {
  }

  /** A whitespace-free prefix sticks to the first piece. */
  lemma {:induction false} WsSplitPrefix(w: string, s: string)
    requires forall k :: 0 <= k < |w| ==> !IsSpace(w[k])
    ensures WsSplit(w + s) == [w + WsSplit(s)[0]] + WsSplit(s)[1..]
    decreases |w|
  {
    var x := WsSplit(s);
    if w == [] {
      assert w + s == s;
      assert w + x[0] == x[0];
      assert [x[0]] + x[1..] == x;
    } else {
      var t := w + s;
      var u := w[1..] + s;
      assert WsSplit(u) == [w[1..] + x[0]] + x[1..] by {
        WsSplitPrefix(w[1..], s);
      }
      assert t[0] == w[0] && t[1..] == u;
      WsSplitChar(t);
      FirstPieceCons(w, x[0], x[1..], WsSplit(u));
    }
  }

  lemma FirstPieceCons(w: string, first: string, more: seq<string>, rest: seq<string>)
    requires w != [] && rest == [w[1..] + first] + more
    ensures [[w[0]] + rest[0]] + rest[1..] == [w + first] + more
  {
    assert [w[0]] + (w[1..] + first) == w + first;
  }

  /** A single space before a word starts a new piece. */
  lemma WsSplitSpace(s: string)
    requires s == [] || !IsSpace(s[0])
    ensures WsSplit([' '] + s) == [[]] + WsSplit(s)
  {
    var t := [' '] + s;
    assert t[1..] == s;
    assert DropSpaces(t) == s;
  }

  /** Splitting words joined by single spaces gives the words back. */
  lemma {:induction false} WsSplitJoin(words: seq<string>)
    requires |words| >= 1
    requires forall k :: 0 <= k < |words| ==> words[k] != []
    requires forall k, j :: 0 <= k < |words| && 0 <= j < |words[k]| ==> !IsSpace(words[k][j])
    ensures WsSplit(Join(words, " ")) == words
  {
    if |words| == 1 {
      WsSplitWithout(words[0]);
    } else {
      var rest := Join(words[1..], " ");
      WsSplitJoin(words[1..]);
      assert words[1..][0] == words[1];
      JoinHead(words[1..]);
      WsSplitSpace(rest);
      var y := WsSplit([' '] + rest);
      assert y == [[]] + words[1..];
      assert y[0] == [] && y[1..] == words[1..];
      assert Join(words, " ") == words[0] + ([' '] + rest);
      WsSplitPrefix(words[0], [' '] + rest);
      assert WsSplit(Join(words, " ")) == [words[0] + []] + words[1..];
      assert words[0] + [] == words[0];
      assert words == [words[0]] + words[1..];
    }
  }

  /** A join of non-empty pieces starts with the first piece. */
  lemma JoinHead(parts: seq<string>)
    requires |parts| >= 1 && parts[0] != []
    ensures Join(parts, " ") != [] && Join(parts, " ")[0] == parts[0][0]
  {
  }
}
