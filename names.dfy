/**
 * `convertName` in easybuild/tools/filetools.py: turns a package name into
 * something usable as a variable name by spelling out `+` and `-`.
 */
module Names {
  import opened Strings

  /** The substitutions, in the order the source's dictionary lists them. */
  const CharMap: seq<(char, string)> := [('+', "plus"), ('-', "min")]

  /** Applies the substitutions of `m` one after the other. */
  function ApplyCharMap(s: string, m: seq<(char, string)>): string
    decreases |m|
  {
    if m == [] then s else ApplyCharMap(ReplaceChar(s, m[0].0, m[0].1), m[1..])
  }

  function Converted(name: string): string {
    ApplyCharMap(name, CharMap)
  }

  /** No `+` or `-` is left, whatever the upper-casing. */
  lemma NoOperatorsLeft(name: string)
    ensures var r := Converted(name); '+' !in r && '-' !in r
    ensures var r := Upper(Converted(name)); '+' !in r && '-' !in r
  {
    var s1 := ReplaceChar(name, '+', "plus");
    ReplaceCharRemoves(name, '+', "plus", '+');
    ReplaceCharRemoves(s1, '-', "min", '-');
    ReplaceCharRemoves(s1, '-', "min", '+');
    assert Converted(name) == ReplaceChar(s1, '-', "min");
  }

  /**
   * Python 2 dictionaries have no fixed order; the result is the same in
   * either order of the two substitutions.
   */
  lemma OrderIndependent(name: string)
    ensures Converted(name) == ApplyCharMap(name, [CharMap[1], CharMap[0]])
  {
    ReplaceCharCommute(name, '+', "plus", '-', "min");
  }

  /** Each `+` adds three characters and each `-` two. */
  lemma ConvertedLength(name: string)
    ensures |Converted(name)| == |name| + 3 * Count(name, '+') + 2 * Count(name, '-')
  {
    var s1 := ReplaceChar(name, '+', "plus");
    ReplaceCharLength(name, '+', "plus");
    ReplaceCharLength(s1, '-', "min");
    CountReplaced(name, '+', "plus", '-');
    assert Converted(name) == ReplaceChar(s1, '-', "min");
  }

  lemma {:induction false} CountReplaced(s: string, c: char, rep: string, d: char)
    requires c != d && d !in rep
    ensures Count(ReplaceChar(s, c, rep), d) == Count(s, d)
  {
    if s != [] {
      CountReplaced(s[1..], c, rep, d);
      CountAppend(if s[0] == c then rep else [s[0]], ReplaceChar(s[1..], c, rep), d);
      if s[0] == c {
        CountWithout(rep, d);
      }
    }
  }

  lemma {:induction false} CountAppend(a: string, b: string, d: char)
    ensures Count(a + b, d) == Count(a, d) + Count(b, d)
  {
    if a != [] {
      CountAppend(a[1..], b, d);
      assert (a + b)[1..] == a[1..] + b;
    } else {
      assert a + b == b;
    }
  }

  lemma {:induction false} CountWithout(s: string, d: char)
    requires d !in s
    ensures Count(s, d) == 0
  {
    if s != [] {
      CountWithout(s[1..], d);
    }
  }

  /** `convertName(name, upper)`: the substitutions in dictionary order, then optional upper-casing. */
  method ConvertName(name: string, upper: bool) returns (r: string)
    ensures r == if upper then Upper(Converted(name)) else Converted(name)
    ensures '+' !in r && '-' !in r
  {
    r := name;
    var i := 0;
    while i < |CharMap|
      invariant 0 <= i <= |CharMap|
      invariant ApplyCharMap(r, CharMap[i..]) == Converted(name)
    {
      r := ReplaceChar(r, CharMap[i].0, CharMap[i].1);
      i := i + 1;
    }
    NoOperatorsLeft(name);
    if upper {
      r := Upper(r);
    }
  }
}
