/**
 * `fetch_parameters_from_easyconfig` in
 * easybuild/framework/easyconfig/parser.py: for each requested name, the
 * value of the first `name = value` line of the easyconfig text, with
 * surrounding quotes stripped. The multi-line search
 * `^\s*NAME\s*=\s*(?P<param>\S.*?)\s*$` is written out character by
 * character.
 */
module FetchParams {
  import opened Wrappers
  import opened Strings

  /** The first index from `q` on that is not whitespace, or `|txt|`. */
  function SkipSpace(txt: string, q: nat): (r: nat)
    requires q <= |txt|
    ensures q <= r <= |txt|
    ensures forall k :: q <= k < r ==> IsSpace(txt[k])
    ensures r < |txt| ==> !IsSpace(txt[r])
    decreases |txt| - q
  {
    if q == |txt| || !IsSpace(txt[q]) then q else SkipSpace(txt, q + 1)
  }

  /** The index of the first newline from `v` on, or `|txt|`. */
  function LineEnd(txt: string, v: nat): (r: nat)
    requires v <= |txt|
    ensures v <= r <= |txt|
    ensures forall k :: v <= k < r ==> txt[k] != '\n'
    ensures r < |txt| ==> txt[r] == '\n'
    decreases |txt| - v
  {
    if v == |txt| || txt[v] == '\n' then v else LineEnd(txt, v + 1)
  }

  /** `^\s*` can end at `p`: only whitespace lies between a line start and `p`. */
  predicate Indented(txt: string, p: nat)
    requires p <= |txt|
  {
    p == 0 || txt[p - 1] == '\n' || (IsSpace(txt[p - 1]) && Indented(txt, p - 1))
  }

  /**
   * What `\s*=\s*(?P<param>\S.*?)\s*$` captures right after the name ending
   * at `q`: the first non-whitespace text after the `=` (possibly on a
   * later line) up to the end of its line, trailing whitespace dropped.
   */
  function CapturedAfter(txt: string, q: nat): (r: Option<string>)
    requires q <= |txt|
    ensures r.Some? ==> r.value != [] && !IsSpace(r.value[0]) && !IsSpace(r.value[|r.value| - 1])
    ensures r.Some? ==> '\n' !in r.value
  {
    var e := SkipSpace(txt, q);
    if e < |txt| && txt[e] == '=' then
      var v := SkipSpace(txt, e + 1);
      if v < |txt| then
        var line := txt[v..LineEnd(txt, v)];
        assert line != [] && line[0] == txt[v];
        RStripDropped(line, IsSpace);
        Some(RStrip(line, IsSpace))
      else None
    else None
  }

  /** `name` occurs in `txt` at `p`. */
  predicate OccursAt(txt: string, name: string, p: nat) {
    p + |name| <= |txt| && txt[p..p + |name|] == name
  }

  /** The pattern for `name` matches with the name starting at `p`. */
  predicate MatchAt(txt: string, name: string, p: nat) {
    && OccursAt(txt, name, p)
    && Indented(txt, p)
    && CapturedAfter(txt, p + |name|).Some?
  }

  /** `q` is the first match at or after `p`. */
  predicate FirstMatchFrom(txt: string, name: string, p: nat, q: nat) {
    && p <= q
    && MatchAt(txt, name, q)
    && forall m :: p <= m < q ==> !MatchAt(txt, name, m)
  }

  /**
   * `s.strip("'\"")`: what is left of `s` once the leading and the trailing
   * run of quotes are removed. The result sits at index `i` of `s`, after
   * nothing but quotes and before nothing but quotes, and neither starts
   * nor ends with a quote.
   */
  function StripQuotes(s: string): (r: string)
    ensures var i := |s| - |LStrip(s, IsQuote)|;
      && SliceAt(s, i, r)
      && (forall k :: 0 <= k < i ==> IsQuote(s[k]))
      && (forall k :: i + |r| <= k < |s| ==> IsQuote(s[k]))
    ensures r != [] ==> !IsQuote(r[0]) && !IsQuote(r[|r| - 1])
  {
    var l := LStrip(s, IsQuote);
    LStripDropped(s, IsQuote);
    RStripDropped(l, IsQuote);
    SliceOfSuffix(s, l, RStrip(l, IsQuote));
    Strip(s, IsQuote)
  }

  /** The least `q` in `p..n` with `ok(q)`, if any. */
  function FirstFrom(n: nat, p: nat, ok: nat -> bool): (r: Option<nat>)
    requires p <= n
    ensures r.None? <==> forall q :: p <= q <= n ==> !ok(q)
    ensures r.Some? ==> p <= r.value <= n && ok(r.value)
    ensures r.Some? ==> forall m :: p <= m < r.value ==> !ok(m)
    decreases n - p
  {
    if ok(p) then Some(p)
    else if p == n then None
    else FirstFrom(n, p + 1, ok)
  }

  /**
   * The search for one parameter: the quote-stripped value at the leftmost
   * match, or nothing when no line defines it (`FindParamSpec`).
   */
  function FindParam(txt: string, name: string): (r: Option<string>)
    ensures r.Some? && r.value != [] ==> !IsQuote(r.value[0]) && !IsQuote(r.value[|r.value| - 1])
  {
    var m := FirstFrom(|txt|, 0, (q: nat) => MatchAt(txt, name, q));
    if m.Some? then Some(ValueAt(txt, name, m.value)) else None
  }

  /** `FindParam` finds nothing exactly when no position matches, and otherwise reads the leftmost match. */
  lemma FindParamSpec(txt: string, name: string)
    ensures FindParam(txt, name).None? <==> forall q :: 0 <= q <= |txt| ==> !MatchAt(txt, name, q)
    ensures FindParam(txt, name).Some? ==>
      exists q :: FirstMatchFrom(txt, name, 0, q) && FindParam(txt, name).value == ValueAt(txt, name, q)
  {
    var ok := (q: nat) => MatchAt(txt, name, q);
    assert forall q: nat :: ok(q) == MatchAt(txt, name, q);
    var m := FirstFrom(|txt|, 0, ok);
    if m.Some? {
      assert FirstMatchFrom(txt, name, 0, m.value);
    } else {
      assert forall q :: 0 <= q <= |txt| ==> !ok(q);
    }
  }

  /** The quote-stripped value of the match at `q`. */
  function ValueAt(txt: string, name: string, q: nat): (r: string)
    requires MatchAt(txt, name, q)
    ensures r != [] ==> !IsQuote(r[0]) && !IsQuote(r[|r| - 1])
  {
    StripQuotes(CapturedAfter(txt, q + |name|).value)
  }

  /**
   * `fetch_parameters_from_easyconfig`: one entry per requested name, in
   * order, `None` where the text does not define it.
   */
  method FetchParameters(rawtxt: string, params: seq<string>) returns (paramValues: seq<Option<string>>)
    ensures |paramValues| == |params|
    ensures forall k :: 0 <= k < |params| ==> paramValues[k] == FindParam(rawtxt, params[k])
  {
    var find := (name: string) => FindParam(rawtxt, name);
    paramValues := SearchEach(params, find);
    assert forall k :: 0 <= k < |params| ==> find(params[k]) == FindParam(rawtxt, params[k]);
  }

  /** The loop of `fetch_parameters_from_easyconfig`: one search per name, in order. */
  method SearchEach(params: seq<string>, find: string -> Option<string>) returns (paramValues: seq<Option<string>>)
    ensures |paramValues| == |params|
    ensures forall k :: 0 <= k < |params| ==> paramValues[k] == find(params[k])
  {
    paramValues := [];
    var i := 0;
    while i < |params|
      invariant 0 <= i <= |params|
      invariant |paramValues| == i
      invariant forall k :: 0 <= k < i ==> paramValues[k] == find(params[k])
    {
      paramValues := paramValues + [find(params[i])];
      i := i + 1;
    }
  }

  /** A value without surrounding whitespace or quotes, and without a newline. */
  predicate PlainValue(value: string) {
    && value != []
    && '\n' !in value
    && !IsSpace(value[0]) && !IsSpace(value[|value| - 1])
    && !IsQuote(value[0]) && !IsQuote(value[|value| - 1])
  }

  /** Stripping quotes from text that neither starts nor ends with one changes nothing. */
  lemma StripQuotesPlain(s: string)
    requires s != [] && !IsQuote(s[0]) && !IsQuote(s[|s| - 1])
    ensures StripQuotes(s) == s
  {
  }

  /** Stripping whitespace from text that does not end in it changes nothing. */
  lemma RStripPlain(s: string)
    requires s != [] && !IsSpace(s[|s| - 1])
    ensures RStrip(s, IsSpace) == s
  {
  }

  /** A definition on the first line is read back as written. */
  lemma {:induction false} DefinitionReadBack(name: string, value: string, rest: string)
    requires PlainValue(value)
    ensures FindParam(name + " = " + value + "\n" + rest, name) == Some(value)
  {
    var txt := name + " = " + value + "\n" + rest;
    var n := |name|;
    assert txt == name + (" = " + value + "\n" + rest);
    assert txt[0..n] == name;
    assert txt[n..] == " = " + value + "\n" + rest;
    CapturedDefinition(txt, n, value);
    assert OccursAt(txt, name, 0);
    assert MatchAt(txt, name, 0);
    StripQuotesPlain(value);
  }

  /** After the name, ` = value` and a newline capture exactly `value`. */
  lemma CapturedDefinition(txt: string, n: nat, value: string)
    requires PlainValue(value)
    requires n + 3 + |value| < |txt|
    requires txt[n..n + 3 + |value| + 1] == " = " + value + "\n"
    ensures CapturedAfter(txt, n) == Some(value)
  {
    var v := n + 3;
    var end := v + |value|;
    var def := txt[n..end + 1];
    assert txt[n] == def[0] == ' ' && txt[n + 1] == def[1] == '=' && txt[n + 2] == def[2] == ' ';
    assert txt[v..end] == def[3..3 + |value|] == value;
    assert txt[end] == def[3 + |value|] == '\n';
    assert txt[v] == value[0];
    assert SkipSpace(txt, n) == n + 1 by {
      assert SkipSpace(txt, n + 1) == n + 1;
    }
    assert SkipSpace(txt, n + 2) == v by {
      assert SkipSpace(txt, v) == v;
    }
    assert LineEnd(txt, v) == end by {
      assert forall k :: v <= k < end ==> txt[k] == value[k - v];
      LineEndAt(txt, v, end);
    }
    RStripPlain(value);
  }

  /** `LineEnd` finds the newline that ends a newline-free stretch. */
  lemma {:induction false} LineEndAt(txt: string, v: nat, end: nat)
    requires v <= end < |txt| && txt[end] == '\n'
    requires forall k :: v <= k < end ==> txt[k] != '\n'
    ensures LineEnd(txt, v) == end
    decreases end - v
  {
    if v < end {
      LineEndAt(txt, v + 1, end);
    }
  }

  /** A name that occurs nowhere in the text is not found. */
  lemma AbsentName(txt: string, name: string)
    requires forall q: nat :: !OccursAt(txt, name, q)
    ensures FindParam(txt, name) == None
  {
    FindParamSpec(txt, name);
  }
}
