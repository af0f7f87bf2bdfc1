/**
 * Interactive Command Runner: `run_cmd_qa` in easybuild/tools/filetools.py.
 * The question/answer tables are built from the caller's dictionaries,
 * then each poll of the running process appends what was read to the
 * output buffer, answers the first matching question, and counts polls
 * without progress until the command is declared hung. Reading, writing
 * and killing the process are not modelled: each poll's read result is an
 * input and each answer sent is an output.
 */
module QandA {
  import opened Wrappers
  import opened Strings
  import opened RunCmd

  /** Polls without progress tolerated before the command is killed. */
  const MaxHitCount: nat := 20

  /** How much of the output the hang error reports. */
  const HangTailLength: nat := 500

  /** The whitespace-run pattern between question words; its `\n` is a real newline. */
  const WsRun: string := "[\\s\n]+"

  /** `WsRun` with the `+` dropped and `*$` added: optional trailing whitespace. */
  const QuestionTail: string := "[\\s\n]*$"

  /** The raw-string suffix of standard and no-progress patterns. */
  const StandardTail: string := "[\\s\\n]*$"

  /** The characters `escapeSpecial` puts a backslash before. */
  predicate IsSpecial(c: char) {
    c in "+?()[]*.\\"
  }

  /** `escapeSpecial`: a backslash before each regular-expression metacharacter. */
  function EscapeSpecial(s: string): (r: string)
    ensures |r| >= |s|
  {
    if s == [] then []
    else (if IsSpecial(s[0]) then ['\\', s[0]] else [s[0]]) + EscapeSpecial(s[1..])
  }

  /** Drops each escaping backslash: the literal text an escaped pattern stands for. */
  function Unescape(s: string): string {
    if s == [] then []
    else if s[0] == '\\' && |s| >= 2 then [s[1]] + Unescape(s[2..])
    else [s[0]] + Unescape(s[1..])
  }

  /** Escaping loses nothing: the escaped text reads back as the original. */
  lemma {:induction false} EscapeRoundTrip(s: string)
    ensures Unescape(EscapeSpecial(s)) == s
  {
    if s != [] {
      EscapeRoundTrip(s[1..]);
      var rest := EscapeSpecial(s[1..]);
      if IsSpecial(s[0]) {
        var e := ['\\', s[0]] + rest;
        assert e[2..] == rest;
        assert Unescape(e) == [s[0]] + Unescape(rest);
      } else {
        var e := [s[0]] + rest;
        assert e[1..] == rest;
        assert s[0] != '\\';
        assert Unescape(e) == [s[0]] + Unescape(rest);
      }
      assert s == [s[0]] + s[1..];
    }
  }

  /** Escaping distributes over concatenation. */
  lemma {:induction false} EscapeSpecialConcat(a: string, b: string)
    ensures EscapeSpecial(a + b) == EscapeSpecial(a) + EscapeSpecial(b)
  {
    if a == [] {
      assert a + b == b;
    } else {
      var ab := a + b;
      assert ab[0] == a[0] && ab[1..] == a[1..] + b;
      EscapeSpecialConcat(a[1..], b);
      var head := if IsSpecial(a[0]) then ['\\', a[0]] else [a[0]];
      assert EscapeSpecial(ab) == head + EscapeSpecial(a[1..] + b);
      assert EscapeSpecial(a) == head + EscapeSpecial(a[1..]);
    }
  }

  /**
   * What escaping does, character by character: the empty text stays
   * empty, and wherever a character `c` sits, its escaped form is a
   * backslash and `c` when `c` is one of `+?()[]*.\`, and `c` alone
   * otherwise, between the escaped text before it and after it.
   */
  lemma EscapeSpecialSpec(a: string, c: char, b: string)
    ensures EscapeSpecial([]) == []
    ensures EscapeSpecial(a + [c] + b)
         == EscapeSpecial(a) + (if IsSpecial(c) then ['\\', c] else [c]) + EscapeSpecial(b)
  {
    assert a + [c] + b == a + ([c] + b);
    EscapeSpecialConcat(a, [c] + b);
    assert ([c] + b)[0] == c && ([c] + b)[1..] == b;
  }

  /** Text without metacharacters is its own pattern. */
  lemma {:induction false} EscapePlain(s: string)
    requires forall k :: 0 <= k < |s| ==> !IsSpecial(s[k])
    ensures EscapeSpecial(s) == s
  {
    if s != [] {
      EscapePlain(s[1..]);
      assert s == [s[0]] + s[1..];
    }
  }

  function EscapeAll(pieces: seq<string>): (r: seq<string>)
    ensures |r| == |pieces|
    ensures forall k :: 0 <= k < |r| ==> r[k] == EscapeSpecial(pieces[k])
  {
    seq(|pieces|, k requires 0 <= k < |pieces| => EscapeSpecial(pieces[k]))
  }

  /**
   * The pattern `processQA` builds for a question: the escaped words
   * joined by whitespace runs, then optional trailing whitespace.
   */
  function QuestionPattern(q: string): (r: string)
    ensures EndsWith(r, QuestionTail)
  {
    Join(EscapeAll(WsSplit(q)), WsRun) + QuestionTail
  }

  /**
   * A question written as words separated by single spaces gets one
   * escaped word per word, each pair joined by a whitespace run.
   */
  lemma QuestionPatternOfWords(words: seq<string>)
    requires |words| >= 1
    requires forall k :: 0 <= k < |words| ==> words[k] != []
    requires forall k, j :: 0 <= k < |words| && 0 <= j < |words[k]| ==> !IsSpace(words[k][j])
    ensures QuestionPattern(Join(words, " ")) == Join(EscapeAll(words), WsRun) + QuestionTail
  {
    WsSplitJoin(words);
  }

  /** `s.endswith('\n')`. */
  predicate Terminated(s: string) {
    s != [] && s[|s| - 1] == '\n'
  }

  /** An answer with a newline appended unless it already ends in one. */
  function WithNewline(a: string): (r: string)
    ensures Terminated(r)
    ensures StartsWith(r, a) && |r| <= |a| + 1
    ensures Terminated(a) ==> r == a
  {
    if Terminated(a) then a else a + "\n"
  }

  /** Normalising an answer twice is normalising it once. */
  lemma WithNewlineIdempotent(a: string)
    ensures WithNewline(WithNewline(a)) == WithNewline(a)
  {
  }

  /** A compiled pattern and the answer to send when it matches. */
  datatype Entry = Entry(pattern: string, answer: string)

  /** The answer stored under `p` in a pattern table. */
  function Lookup(t: seq<Entry>, p: string): Option<string> {
    if t == [] then None
    else if t[0].pattern == p then Some(t[0].answer)
    else Lookup(t[1..], p)
  }

  /**
   * `table[p] = a` on a dictionary kept in insertion order: an existing
   * entry is replaced in place, a new one goes last.
   */
  function Assign(t: seq<Entry>, p: string, a: string): seq<Entry> {
    if t == [] then [Entry(p, a)]
    else if t[0].pattern == p then [Entry(p, a)] + t[1..]
    else [t[0]] + Assign(t[1..], p, a)
  }

  /** After `table[p] = a`, `p` maps to `a` and every other pattern to what it mapped to before. */
  lemma {:induction false} AssignLookup(t: seq<Entry>, p: string, a: string, q: string)
    ensures Lookup(Assign(t, p, a), q) == if q == p then Some(a) else Lookup(t, q)
  {
    if t != [] && t[0].pattern != p {
      AssignLookup(t[1..], p, a, q);
      assert Assign(t, p, a)[1..] == Assign(t[1..], p, a);
    }
  }

  /** Every answer in the table ends in a newline. */
  predicate AllTerminated(t: seq<Entry>) {
    forall k :: 0 <= k < |t| ==> Terminated(t[k].answer)
  }

  /** Storing a newline-terminated answer keeps every answer newline-terminated. */
  lemma {:induction false} AssignTerminated(t: seq<Entry>, p: string, a: string)
    requires AllTerminated(t) && Terminated(a)
    ensures AllTerminated(Assign(t, p, a))
  {
    if t != [] && t[0].pattern != p {
      AssignTerminated(t[1..], p, a);
      var r := Assign(t, p, a);
      assert r[0] == t[0] && r[1..] == Assign(t[1..], p, a);
      assert forall k :: 1 <= k < |r| ==> r[k] == r[1..][k - 1];
    }
  }

  /** How one `(question, answer)` item becomes a table entry, or fails. */
  type EntryMaker = (string, string) -> Result<Entry, Error>

  /**
   * The loop that fills a pattern table: `table[pattern] = answer` for each
   * item in order, stopping at the first item `entry` rejects.
   */
  function Fill(items: seq<(string, string)>, entry: EntryMaker): Result<seq<Entry>, Error>
    decreases |items|
  {
    if items == [] then Success([])
    else
      match Fill(items[..|items| - 1], entry)
      case Failure(e) => Failure(e)
      case Success(t) =>
        var last := items[|items| - 1];
        match entry(last.0, last.1)
        case Failure(e) => Failure(e)
        case Success(e) => Success(Assign(t, e.pattern, e.answer))
  }

  /** The item at `k` is rejected. */
  predicate Rejected(items: seq<(string, string)>, entry: EntryMaker, k: int) {
    0 <= k < |items| && entry(items[k].0, items[k].1).Failure?
  }

  /** Filling fails exactly when some item is rejected, with the error of the first one. */
  lemma {:induction false} FillFailure(items: seq<(string, string)>, entry: EntryMaker)
    ensures Fill(items, entry).Failure? <==> exists k :: Rejected(items, entry, k)
    ensures Fill(items, entry).Failure? ==>
      exists k :: Rejected(items, entry, k) && (forall j :: 0 <= j < k ==> !Rejected(items, entry, j))
        && Fill(items, entry).error == entry(items[k].0, items[k].1).error
    decreases |items|
  {
    if items != [] {
      var n := |items| - 1;
      var init := items[..n];
      FillFailure(init, entry);
      assert forall j :: 0 <= j < n ==> init[j] == items[j];
      assert forall j :: 0 <= j < n ==> (Rejected(init, entry, j) <==> Rejected(items, entry, j));
      if Fill(init, entry).Failure? {
        var k :| Rejected(init, entry, k) && (forall j :: 0 <= j < k ==> !Rejected(init, entry, j))
          && Fill(init, entry).error == entry(init[k].0, init[k].1).error;
        assert Rejected(items, entry, k);
      } else if !Rejected(items, entry, n) {
        assert forall k :: Rejected(items, entry, k) ==> k < n && Rejected(init, entry, k);
      }
    }
  }

  /** Item `j` is accepted and its entry has pattern `p`. */
  predicate FiledUnder(items: seq<(string, string)>, entry: EntryMaker, p: string, j: int) {
    0 <= j < |items| && entry(items[j].0, items[j].1).Success? && entry(items[j].0, items[j].1).value.pattern == p
  }

  /** Item `j` is the last one filed under `p`. */
  predicate LastFiledUnder(items: seq<(string, string)>, entry: EntryMaker, p: string, j: int) {
    FiledUnder(items, entry, p, j) && forall i :: j < i < |items| ==> !FiledUnder(items, entry, p, i)
  }

  /** A successful fill succeeded on every prefix of the items. */
  lemma FillInit(items: seq<(string, string)>, entry: EntryMaker)
    requires items != [] && Fill(items, entry).Success?
    ensures Fill(items[..|items| - 1], entry).Success?
    ensures var e := entry(items[|items| - 1].0, items[|items| - 1].1);
      e.Success? && Fill(items, entry).value == Assign(Fill(items[..|items| - 1], entry).value, e.value.pattern, e.value.answer)
  {
  }

  /**
   * A filled table answers the pattern of every item with the answer of
   * the last item filed under that pattern: later items overwrite earlier
   * ones.
   */
  lemma {:induction false} FillCovers(items: seq<(string, string)>, entry: EntryMaker, k: int)
    requires Fill(items, entry).Success? && 0 <= k < |items|
    ensures entry(items[k].0, items[k].1).Success?
    ensures var p := entry(items[k].0, items[k].1).value.pattern;
      exists j :: k <= j && LastFiledUnder(items, entry, p, j)
        && Lookup(Fill(items, entry).value, p) == Some(entry(items[j].0, items[j].1).value.answer)
    decreases |items|
  {
    var n := |items| - 1;
    var init := items[..n];
    FillInit(items, entry);
    var t := Fill(init, entry).value;
    var e := entry(items[n].0, items[n].1).value;
    if k < n {
      assert init[k] == items[k];
      FillCovers(init, entry, k);
    }
    var p := entry(items[k].0, items[k].1).value.pattern;
    AssignLookup(t, e.pattern, e.answer, p);
    if e.pattern == p {
      assert LastFiledUnder(items, entry, p, n);
    } else {
      FillCovers(init, entry, k);
      var j :| k <= j && LastFiledUnder(init, entry, p, j)
        && Lookup(t, p) == Some(entry(init[j].0, init[j].1).value.answer);
      assert init[j] == items[j];
      forall i | j < i < |items|
        ensures !FiledUnder(items, entry, p, i)
      {
        if i < n {
          assert init[i] == items[i] && !FiledUnder(init, entry, p, i);
        }
      }
      assert LastFiledUnder(items, entry, p, j);
    }
  }

  /** A filled table holds no pattern that no item was filed under. */
  lemma {:induction false} FillKeys(items: seq<(string, string)>, entry: EntryMaker, p: string)
    requires Fill(items, entry).Success?
    requires Lookup(Fill(items, entry).value, p).Some?
    ensures exists k :: FiledUnder(items, entry, p, k)
    decreases |items|
  {
    var n := |items| - 1;
    var init := items[..n];
    FillInit(items, entry);
    var t := Fill(init, entry).value;
    var e := entry(items[n].0, items[n].1).value;
    AssignLookup(t, e.pattern, e.answer, p);
    if e.pattern == p {
      assert FiledUnder(items, entry, p, n);
    } else {
      FillKeys(init, entry, p);
      var k :| FiledUnder(init, entry, p, k);
      assert init[k] == items[k];
      assert FiledUnder(items, entry, p, k);
    }
  }

  /** A table filled with newline-terminated answers holds only such answers. */
  lemma {:induction false} FillTerminated(items: seq<(string, string)>, entry: EntryMaker)
    requires Fill(items, entry).Success?
    requires forall k :: Rejected(items, entry, k) || (0 <= k < |items| ==> Terminated(entry(items[k].0, items[k].1).value.answer))
    ensures AllTerminated(Fill(items, entry).value)
    decreases |items|
  {
    if items != [] {
      var n := |items| - 1;
      var init := items[..n];
      assert forall j :: 0 <= j < n ==> init[j] == items[j];
      assert !Rejected(items, entry, n);
      FillTerminated(init, entry);
      var e := entry(items[n].0, items[n].1).value;
      AssignTerminated(Fill(init, entry).value, e.pattern, e.answer);
    }
  }

  /** A failure while filling from a prefix of the items is the failure of the whole. */
  lemma {:induction false} FillPrefixFailure(items: seq<(string, string)>, i: nat, entry: EntryMaker)
    requires i <= |items|
    requires Fill(items[..i], entry).Failure?
    ensures Fill(items, entry) == Fill(items[..i], entry)
    decreases |items|
  {
    if i < |items| {
      var init := items[..|items| - 1];
      assert init[..i] == items[..i];
      FillPrefixFailure(init, i, entry);
    } else {
      assert items[..i] == items;
    }
  }

  /** `processQA`: the question's pattern must match the question itself. */
  function ProcessQA(q: string, a: string, search: Matcher): (r: Result<Entry, Error>)
    ensures r.Success? <==> search(QuestionPattern(q), q)
    ensures r.Success? ==> r.value.pattern == QuestionPattern(q)
    ensures r.Success? ==> r.value.answer == WithNewline(a)
    ensures r.Failure? ==> r.error == QuestionMismatch(q, QuestionPattern(q))
  {
    var pattern := QuestionPattern(q);
    if search(pattern, q) then Success(Entry(pattern, WithNewline(a)))
    else Failure(QuestionMismatch(q, pattern))
  }

  function ProcessWith(search: Matcher): EntryMaker {
    (q, a) => ProcessQA(q, a, search)
  }

  /** The custom table (`newQA`) built from the `qa` items in order. */
  function CustomTable(qa: seq<(string, string)>, search: Matcher): Result<seq<Entry>, Error> {
    Fill(qa, ProcessWith(search))
  }

  /** Item `j` is the last whose question `key` turns into the pattern `p`. */
  predicate LastKeyed(items: seq<(string, string)>, key: string -> string, p: string, j: int) {
    0 <= j < |items| && key(items[j].0) == p && forall i :: j < i < |items| ==> key(items[i].0) != p
  }

  /** A fill whose entries are `key` of the question and the newline-terminated answer. */
  lemma {:induction false} KeyedFill(items: seq<(string, string)>, entry: EntryMaker, key: string -> string, k: int)
    requires Fill(items, entry).Success? && 0 <= k < |items|
    requires forall i :: 0 <= i < |items| && entry(items[i].0, items[i].1).Success? ==>
      entry(items[i].0, items[i].1).value == Entry(key(items[i].0), WithNewline(items[i].1))
    ensures exists j ::
      k <= j && LastKeyed(items, key, key(items[k].0), j)
      && Lookup(Fill(items, entry).value, key(items[k].0)) == Some(WithNewline(items[j].1))
  {
    FillCovers(items, entry, k);
    var p := key(items[k].0);
    var j :| k <= j && LastFiledUnder(items, entry, p, j)
      && Lookup(Fill(items, entry).value, p) == Some(entry(items[j].0, items[j].1).value.answer);
    forall i | j < i < |items|
      ensures key(items[i].0) != p
    {
      assert !FiledUnder(items, entry, p, i);
      FillCovers(items, entry, i);
    }
    assert LastKeyed(items, key, p, j);
  }

  /** Every pattern of a keyed fill is the key of some question. */
  lemma KeyedFillKeys(items: seq<(string, string)>, entry: EntryMaker, key: string -> string, p: string)
    requires Fill(items, entry).Success? && Lookup(Fill(items, entry).value, p).Some?
    requires forall i :: 0 <= i < |items| && entry(items[i].0, items[i].1).Success? ==>
      entry(items[i].0, items[i].1).value == Entry(key(items[i].0), WithNewline(items[i].1))
    ensures exists k :: 0 <= k < |items| && key(items[k].0) == p
  {
    FillKeys(items, entry, p);
    var k :| FiledUnder(items, entry, p, k);
  }

  /**
   * Building the custom table fails exactly when some question does not
   * match its own pattern, and then with the error of the first such
   * question. Once built, every answer in it ends in a newline, it holds
   * only the patterns of the questions, and under each question's pattern
   * sits the answer of the last question with that pattern.
   */
  lemma CustomTableSpec(qa: seq<(string, string)>, search: Matcher)
    ensures CustomTable(qa, search).Failure? <==> exists k :: 0 <= k < |qa| && !search(QuestionPattern(qa[k].0), qa[k].0)
    ensures CustomTable(qa, search).Failure? ==>
      exists k :: 0 <= k < |qa| && !search(QuestionPattern(qa[k].0), qa[k].0)
        && (forall j :: 0 <= j < k ==> search(QuestionPattern(qa[j].0), qa[j].0))
        && CustomTable(qa, search).error == QuestionMismatch(qa[k].0, QuestionPattern(qa[k].0))
    ensures CustomTable(qa, search).Success? ==> AllTerminated(CustomTable(qa, search).value)
    ensures CustomTable(qa, search).Success? ==> forall k :: 0 <= k < |qa| ==>
      exists j ::
        k <= j && LastKeyed(qa, QuestionPattern, QuestionPattern(qa[k].0), j)
        && Lookup(CustomTable(qa, search).value, QuestionPattern(qa[k].0)) == Some(WithNewline(qa[j].1))
    ensures CustomTable(qa, search).Success? ==> forall p :: Lookup(CustomTable(qa, search).value, p).Some? ==>
      exists k :: 0 <= k < |qa| && QuestionPattern(qa[k].0) == p
  {
    var entry := ProcessWith(search);
    FillFailure(qa, entry);
    assert forall k :: Rejected(qa, entry, k) <==> 0 <= k < |qa| && !search(QuestionPattern(qa[k].0), qa[k].0);
    if CustomTable(qa, search).Success? {
      FillTerminated(qa, entry);
      CustomTableContents(qa, search);
    }
  }

  /** The patterns and answers of a built custom table. */
  lemma CustomTableContents(qa: seq<(string, string)>, search: Matcher)
    requires CustomTable(qa, search).Success?
    ensures forall k :: 0 <= k < |qa| ==>
      exists j ::
        k <= j && LastKeyed(qa, QuestionPattern, QuestionPattern(qa[k].0), j)
        && Lookup(CustomTable(qa, search).value, QuestionPattern(qa[k].0)) == Some(WithNewline(qa[j].1))
    ensures forall p :: Lookup(CustomTable(qa, search).value, p).Some? ==>
      exists k :: 0 <= k < |qa| && QuestionPattern(qa[k].0) == p
  {
    var entry := ProcessWith(search);
    var key := QuestionPattern;
    assert forall i :: 0 <= i < |qa| && entry(qa[i].0, qa[i].1).Success? ==>
      entry(qa[i].0, qa[i].1).value == Entry(key(qa[i].0), WithNewline(qa[i].1));
    forall k | 0 <= k < |qa|
      ensures exists j ::
        k <= j && LastKeyed(qa, QuestionPattern, QuestionPattern(qa[k].0), j)
        && Lookup(CustomTable(qa, search).value, QuestionPattern(qa[k].0)) == Some(WithNewline(qa[j].1))
    {
      KeyedFill(qa, entry, key, k);
    }
    forall p | Lookup(CustomTable(qa, search).value, p).Some?
      ensures exists k :: 0 <= k < |qa| && QuestionPattern(qa[k].0) == p
    {
      KeyedFillKeys(qa, entry, key, p);
    }
  }

  /** The loop over `qa.items()` that fills `newQA`. */
  method BuildCustomTable(qa: seq<(string, string)>, search: Matcher) returns (r: Result<seq<Entry>, Error>)
    ensures r == CustomTable(qa, search)
  {
    ghost var entry := ProcessWith(search);
    var newQA: seq<Entry> := [];
    var i := 0;
    while i < |qa|
      invariant 0 <= i <= |qa|
      invariant Fill(qa[..i], entry) == Success(newQA)
    {
      var (question, answer) := qa[i];
      assert qa[..i + 1][..i] == qa[..i] && qa[..i + 1][i] == qa[i];
      var processed := ProcessQA(question, answer, search);
      assert processed == entry(question, answer);
      if processed.Failure? {
        FillPrefixFailure(qa, i + 1, entry);
        return Failure(processed.error);
      }
      newQA := Assign(newQA, processed.value.pattern, processed.value.answer);
      i := i + 1;
    }
    assert qa[..i] == qa;
    r := Success(newQA);
  }

  /** A standard question or no-progress statement taken as a pattern with optional trailing whitespace. */
  function Anchored(q: string): string {
    q + StandardTail
  }

  /** A standard question's entry. */
  function StandardEntry(q: string, a: string): Result<Entry, Error> {
    Success(Entry(Anchored(q), WithNewline(a)))
  }

  /** The standard table (`newstdQA`), which cannot fail to build. */
  function StandardTable(stdQA: seq<(string, string)>): seq<Entry> {
    FillFailure(stdQA, StandardEntry);
    Fill(stdQA, StandardEntry).value
  }

  /**
   * Every answer in the standard table ends in a newline, it holds only the
   * anchored standard questions, and under each anchored question sits the
   * answer of the last item with that question.
   */
  lemma StandardTableSpec(stdQA: seq<(string, string)>)
    ensures AllTerminated(StandardTable(stdQA))
    ensures forall k :: 0 <= k < |stdQA| ==>
      exists j ::
        k <= j && LastKeyed(stdQA, Anchored, Anchored(stdQA[k].0), j)
        && Lookup(StandardTable(stdQA), Anchored(stdQA[k].0)) == Some(WithNewline(stdQA[j].1))
    ensures forall p :: Lookup(StandardTable(stdQA), p).Some? ==>
      exists k :: 0 <= k < |stdQA| && Anchored(stdQA[k].0) == p
  {
    FillFailure(stdQA, StandardEntry);
    FillTerminated(stdQA, StandardEntry);
    var key := Anchored;
    forall k | 0 <= k < |stdQA|
      ensures exists j ::
        k <= j && LastKeyed(stdQA, Anchored, Anchored(stdQA[k].0), j)
        && Lookup(StandardTable(stdQA), Anchored(stdQA[k].0)) == Some(WithNewline(stdQA[j].1))
    {
      KeyedFill(stdQA, StandardEntry, key, k);
    }
    forall p | Lookup(StandardTable(stdQA), p).Some?
      ensures exists k :: 0 <= k < |stdQA| && Anchored(stdQA[k].0) == p
    {
      KeyedFillKeys(stdQA, StandardEntry, key, p);
    }
  }

  /** The loop over `std_qa.items()` that fills `newstdQA`. */
  method BuildStandardTable(stdQA: seq<(string, string)>) returns (newStdQA: seq<Entry>)
    ensures newStdQA == StandardTable(stdQA)
  {
    newStdQA := [];
    var i := 0;
    while i < |stdQA|
      invariant 0 <= i <= |stdQA|
      invariant Fill(stdQA[..i], StandardEntry) == Success(newStdQA)
    {
      var (question, answer) := stdQA[i];
      assert stdQA[..i + 1][..i] == stdQA[..i] && stdQA[..i + 1][i] == stdQA[i];
      newStdQA := Assign(newStdQA, Anchored(question), WithNewline(answer));
      i := i + 1;
    }
    assert stdQA[..i] == stdQA;
  }

  /** `new_no_qa`: each no-progress statement with optional trailing whitespace. */
  function NoProgressPatterns(noQA: seq<string>): (r: seq<string>)
    ensures |r| == |noQA|
    ensures forall k :: 0 <= k < |r| ==> StartsWith(r[k], noQA[k]) && EndsWith(r[k], StandardTail)
    ensures forall k :: 0 <= k < |r| ==> |r[k]| == |noQA[k]| + |StandardTail|
  {
    seq(|noQA|, k requires 0 <= k < |noQA| => Anchored(noQA[k]))
  }

  /** The three tables a session consults. */
  datatype Tables = Tables(custom: seq<Entry>, standard: seq<Entry>, noProgress: seq<string>)

  /** The entry at `k` is the first in the table whose pattern matches `text`. */
  predicate FirstMatchAt(t: seq<Entry>, search: Matcher, text: string, k: int) {
    && 0 <= k < |t|
    && search(t[k].pattern, text)
    && forall j :: 0 <= j < k ==> !search(t[j].pattern, text)
  }

  /** The answer of the first entry, in table order, whose pattern matches `text`. */
  function FirstMatch(t: seq<Entry>, search: Matcher, text: string): (r: Option<string>)
    ensures r.None? <==> forall k :: 0 <= k < |t| ==> !search(t[k].pattern, text)
    ensures r.Some? ==> exists k :: FirstMatchAt(t, search, text, k) && r.value == t[k].answer
  {
    if t == [] then None
    else if search(t[0].pattern, text) then
      assert FirstMatchAt(t, search, text, 0);
      Some(t[0].answer)
    else
      var r := FirstMatch(t[1..], search, text);
      assert forall k :: 1 <= k < |t| ==> t[k] == t[1..][k - 1];
      if r.Some? then
        var k :| FirstMatchAt(t[1..], search, text, k) && r.value == t[1..][k].answer;
        assert FirstMatchAt(t, search, text, k + 1);
        r
      else r
  }

  /** Some pattern of the list matches `text`. */
  predicate AnyMatch(patterns: seq<string>, search: Matcher, text: string) {
    exists k :: 0 <= k < |patterns| && search(patterns[k], text)
  }

  /** The loop state: output buffer, `oldLenOut` and `hitCount`. */
  datatype Session = Session(output: string, oldLenOut: int, hitCount: nat)

  /** The state before the first poll. */
  const Initial: Session := Session("", -1, 0)

  /** One poll's outcome: the new state, the answer sent (if any), and whether the command was killed. */
  datatype Poll = Poll(session: Session, sent: Option<string>, killed: bool)

  /** The buffer after a poll; a failed read (`None`) leaves it unchanged. */
  function Received(output: string, read: Option<string>): string {
    if read.Some? then output + read.value else output
  }

  /** This poll read some text (the `tmpOut and` guard of the answer loops). */
  predicate ReadSomething(read: Option<string>) {
    read.Some? && read.value != []
  }

  /**
   * One iteration of the polling loop. After a read that returned text, the
   * first matching custom pattern, else the first matching standard
   * pattern, is answered and resets the counter. Without an answer, a grown
   * buffer only records its new length, a no-progress match changes
   * nothing, and any other poll adds one to the counter. The command is
   * killed once the counter exceeds `MaxHitCount`.
   */
  function Step(t: Tables, search: Matcher, s: Session, read: Option<string>): (p: Poll)
    ensures p.session.output == Received(s.output, read)
    ensures p.sent.Some? <==> (ReadSomething(read)
      && (FirstMatch(t.custom, search, p.session.output).Some?
          || FirstMatch(t.standard, search, p.session.output).Some?))
    ensures p.sent.Some? && FirstMatch(t.custom, search, p.session.output).Some?
      ==> p.sent == FirstMatch(t.custom, search, p.session.output)
    ensures p.sent.Some? && FirstMatch(t.custom, search, p.session.output).None?
      ==> p.sent == FirstMatch(t.standard, search, p.session.output)
    ensures p.sent.Some? ==> p.session.hitCount == 0 && p.session.oldLenOut == s.oldLenOut
    ensures p.sent.None? && |p.session.output| > s.oldLenOut
      ==> p.session.oldLenOut == |p.session.output| && p.session.hitCount == s.hitCount
    ensures p.sent.None? && |p.session.output| <= s.oldLenOut
      ==> (p.session.oldLenOut == s.oldLenOut
        && p.session.hitCount == (if AnyMatch(t.noProgress, search, p.session.output) then s.hitCount else s.hitCount + 1))
    ensures p.killed <==> p.session.hitCount > MaxHitCount
  {
    var out := Received(s.output, read);
    var custom := if ReadSomething(read) then FirstMatch(t.custom, search, out) else None;
    var answer := if custom.Some? then custom
                  else if ReadSomething(read) then FirstMatch(t.standard, search, out)
                  else None;
    var next :=
      if answer.Some? then Session(out, s.oldLenOut, 0)
      else if |out| > s.oldLenOut then Session(out, |out|, s.hitCount)
      else if AnyMatch(t.noProgress, search, out) then Session(out, s.oldLenOut, s.hitCount)
      else Session(out, s.oldLenOut, s.hitCount + 1);
    Poll(next, answer, next.hitCount > MaxHitCount)
  }

  /** The `for q, a in table.items()` search, behind the `tmpOut` guard. */
  method SearchTable(t: seq<Entry>, search: Matcher, text: string, gotText: bool) returns (answer: Option<string>)
    ensures answer == (if gotText then FirstMatch(t, search, text) else None)
  {
    answer := None;
    var i := 0;
    while i < |t|
      invariant 0 <= i <= |t|
      invariant gotText ==> FirstMatch(t, search, text) == FirstMatch(t[i..], search, text)
    {
      assert t[i..][0] == t[i] && t[i..][1..] == t[i + 1..];
      if gotText && search(t[i].pattern, text) {
        answer := Some(t[i].answer);
        break;
      }
      i := i + 1;
    }
  }

  /** The loop over `new_no_qa`, which tries every pattern. */
  method SearchNoProgress(patterns: seq<string>, search: Matcher, text: string) returns (noqa: bool)
    ensures noqa == AnyMatch(patterns, search, text)
  {
    noqa := false;
    var i := 0;
    while i < |patterns|
      invariant 0 <= i <= |patterns|
      invariant noqa <==> exists k :: 0 <= k < i && search(patterns[k], text)
    {
      if search(patterns[i], text) {
        noqa := true;
      }
      i := i + 1;
    }
  }

  /** The body of the polling loop, from the read to the hang check. */
  method PollOnce(t: Tables, search: Matcher, s: Session, read: Option<string>) returns (p: Poll)
    ensures p == Step(t, search, s, read)
  {
    var stdoutErr := s.output;
    var oldLenOut := s.oldLenOut;
    var hitCount := s.hitCount;
    if read.Some? {
      stdoutErr := stdoutErr + read.value;
    }
    var gotText := read.Some? && read.value != [];
    var answer := SearchTable(t.custom, search, stdoutErr, gotText);
    if answer.None? {
      answer := SearchTable(t.standard, search, stdoutErr, gotText);
      if answer.None? {
        if |stdoutErr| > oldLenOut {
          oldLenOut := |stdoutErr|;
        } else {
          var noqa := SearchNoProgress(t.noProgress, search, stdoutErr);
          if !noqa {
            hitCount := hitCount + 1;
          }
        }
      } else {
        hitCount := 0;
      }
    } else {
      hitCount := 0;
    }
    p := Poll(Session(stdoutErr, oldLenOut, hitCount), answer, hitCount > MaxHitCount);
  }

  /** What a run of polls produced: the final state, the answers sent, and whether it ended in a kill. */
  datatype Polled = Polled(session: Session, sent: seq<string>, killed: bool)

  function SentBy(p: Poll): seq<string> {
    if p.sent.Some? then [p.sent.value] else []
  }

  /** `r` with `sent` sent before it. */
  function Prepend(sent: seq<string>, r: Polled): Polled {
    Polled(r.session, sent + r.sent, r.killed)
  }

  /** The polls of one run, in order, stopping at a kill. */
  function RunPolls(t: Tables, search: Matcher, s: Session, polls: seq<Option<string>>): Polled
    decreases |polls|
  {
    if polls == [] then Polled(s, [], false)
    else
      var p := Step(t, search, s, polls[0]);
      if p.killed then Polled(p.session, SentBy(p), true)
      else
        Prepend(SentBy(p), RunPolls(t, search, p.session, polls[1..]))
  }

  /**
   * The counter never exceeds `MaxHitCount` in a run that was not killed,
   * and a kill happens exactly when it first reaches `MaxHitCount + 1`.
   */
  lemma {:induction false} HitCountBounded(t: Tables, search: Matcher, s: Session, polls: seq<Option<string>>)
    requires s.hitCount <= MaxHitCount
    ensures var r := RunPolls(t, search, s, polls);
      (r.killed ==> r.session.hitCount == MaxHitCount + 1)
      && (!r.killed ==> r.session.hitCount <= MaxHitCount)
    decreases |polls|
  {
    if polls != [] {
      var p := Step(t, search, s, polls[0]);
      if !p.killed {
        HitCountBounded(t, search, p.session, polls[1..]);
      }
    }
  }

  /** When both tables hold only newline-terminated answers, so does everything sent. */
  lemma {:induction false} SentAnswersTerminated(t: Tables, search: Matcher, s: Session, polls: seq<Option<string>>)
    requires AllTerminated(t.custom) && AllTerminated(t.standard)
    ensures forall k :: 0 <= k < |RunPolls(t, search, s, polls).sent| ==> Terminated(RunPolls(t, search, s, polls).sent[k])
    decreases |polls|
  {
    if polls != [] {
      var p := Step(t, search, s, polls[0]);
      if p.sent.Some? {
        var out := p.session.output;
        var c := FirstMatch(t.custom, search, out);
        if c.Some? {
          var k :| FirstMatchAt(t.custom, search, out, k) && c.value == t.custom[k].answer;
        } else {
          var d := FirstMatch(t.standard, search, out);
          var k :| FirstMatchAt(t.standard, search, out, k) && d.value == t.standard[k].answer;
        }
      }
      if !p.killed {
        SentAnswersTerminated(t, search, p.session, polls[1..]);
      }
    }
  }

  /** A poll that read nothing (a failed read or an empty one). */
  predicate Silent(polls: seq<Option<string>>) {
    forall k :: 0 <= k < |polls| ==> !ReadSomething(polls[k]) && Received("", polls[k]) == ""
  }

  /**
   * A command that prints nothing more and shows no no-progress prompt is
   * killed after exactly `MaxHitCount + 1 - hitCount` further polls, once
   * its output length has been recorded.
   */
  lemma {:induction false} SilentCommandKilled(t: Tables, search: Matcher, s: Session, polls: seq<Option<string>>)
    requires s.hitCount <= MaxHitCount && |s.output| <= s.oldLenOut
    requires !AnyMatch(t.noProgress, search, s.output)
    requires Silent(polls)
    ensures RunPolls(t, search, s, polls).killed <==> s.hitCount + |polls| > MaxHitCount
    ensures !RunPolls(t, search, s, polls).killed
      ==> RunPolls(t, search, s, polls) == Polled(Session(s.output, s.oldLenOut, s.hitCount + |polls|), [], false)
    decreases |polls|
  {
    if polls != [] {
      var r := polls[0];
      assert !ReadSomething(r) && Received("", r) == "";
      assert Received(s.output, r) == s.output;
      var p := Step(t, search, s, r);
      assert p.sent.None?;
      assert p.session == Session(s.output, s.oldLenOut, s.hitCount + 1);
      if !p.killed {
        assert forall k :: 0 <= k < |polls[1..]| ==> polls[1..][k] == polls[k + 1];
        SilentCommandKilled(t, search, p.session, polls[1..]);
      }
    }
  }

  /**
   * From the start of a run, a command that never prints anything (and
   * whose empty output is no no-progress prompt) is killed at the 22nd poll:
   * the first poll records the empty buffer, the next 21 count.
   */
  lemma InitialSilenceKilled(t: Tables, search: Matcher, polls: seq<Option<string>>)
    requires !AnyMatch(t.noProgress, search, "")
    requires Silent(polls)
    ensures RunPolls(t, search, Initial, polls).killed <==> |polls| >= MaxHitCount + 2
  {
    if polls != [] {
      var r := polls[0];
      assert !ReadSomething(r) && Received("", r) == "";
      var p := Step(t, search, Initial, r);
      assert p.session == Session("", 0, 0) && !p.killed && p.sent.None?;
      assert forall k :: 0 <= k < |polls[1..]| ==> polls[1..][k] == polls[k + 1];
      SilentCommandKilled(t, search, p.session, polls[1..]);
    }
  }

  /** The polling loop of `run_cmd_qa`, one iteration per read while the process runs. */
  method PollWhileRunning(t: Tables, search: Matcher, polls: seq<Option<string>>)
    returns (session: Session, sent: seq<string>, killed: bool)
    ensures RunPolls(t, search, Initial, polls) == Polled(session, sent, killed)
  {
    sent := [];
    session := Initial;
    var i := 0;
    while i < |polls|
      invariant 0 <= i <= |polls|
      invariant RunPolls(t, search, Initial, polls) == Prepend(sent, RunPolls(t, search, session, polls[i..]))
    {
      var p := PollOnce(t, search, session, polls[i]);
      RunPollsFirst(t, search, session, polls[i..], p);
      assert polls[i..][1..] == polls[i + 1..];
      PrependTwice(sent, SentBy(p), RunPolls(t, search, p.session, polls[i + 1..]));
      sent := sent + SentBy(p);
      if p.killed {
        return p.session, sent, true;
      }
      session := p.session;
      i := i + 1;
    }
    assert polls[i..] == [] && sent + [] == sent;
    killed := false;
  }

  /** A run of polls starts with the step on its first read. */
  lemma RunPollsFirst(t: Tables, search: Matcher, s: Session, polls: seq<Option<string>>, p: Poll)
    requires polls != [] && p == Step(t, search, s, polls[0])
    ensures RunPolls(t, search, s, polls)
      == if p.killed then Polled(p.session, SentBy(p), true)
         else Prepend(SentBy(p), RunPolls(t, search, p.session, polls[1..]))
  {
  }

  lemma PrependTwice(a: seq<string>, b: seq<string>, r: Polled)
    ensures Prepend(a, Prepend(b, r)) == Prepend(a + b, r)
  {
    assert a + (b + r.sent) == (a + b) + r.sent;
  }

  /**
   * `run_cmd_qa`: build the tables, poll once per entry of `polls` (the
   * read results while the process runs), then add the final read and
   * finish like `run_cmd`; a kill fails with the end of the output.
   */
  method RunQA(cmd: string, qa: seq<(string, string)>, noQA: seq<string>, stdQA: seq<(string, string)>,
               polls: seq<Option<string>>, final: Option<string>, ec: int, simple: bool, logOk: bool,
               logAll: bool, scan: ScanOption, search: Matcher, errorsFound: nat)
    returns (r: Result<RunResult, Error>, sent: seq<string>, count: nat)
    requires ec >= 0 || CustomTable(qa, search).Failure?
             || RunPolls(Tables(CustomTable(qa, search).value, StandardTable(stdQA), NoProgressPatterns(noQA)),
                         search, Initial, polls).killed
    ensures CustomTable(qa, search).Failure? ==>
      r == Failure(CustomTable(qa, search).error) && sent == [] && count == errorsFound
    ensures CustomTable(qa, search).Success? ==>
      var run := RunPolls(Tables(CustomTable(qa, search).value, StandardTable(stdQA), NoProgressPatterns(noQA)),
                          search, Initial, polls);
      && sent == run.sent
      && (run.killed ==> r == Failure(HangTimeout(cmd, Tail(run.session.output, HangTailLength))) && count == errorsFound)
      && var out := Received(run.session.output, final);
      var v := FinishRun(cmd, out, ec, simple, logOk, logAll);
      && (!run.killed && (v.Failure? || !Scans(scan)) ==> r == v && count == errorsFound)
      && (!run.killed && v.Success? && scan.ScanInvalid? ==> r == Failure(InvalidRegExp) && count == errorsFound)
      && (!run.killed && v.Success? && ScansUsable(scan) ==>
            r == v && count == errorsFound + |MatchingLines(Split(out, '\n'), PatternOf(ScanArg(scan)), search)|)
  {
    sent := [];
    count := errorsFound;
    var newQA := BuildCustomTable(qa, search);
    if newQA.Failure? {
      return Failure(newQA.error), sent, count;
    }
    var newStdQA := BuildStandardTable(stdQA);
    var t := Tables(newQA.value, newStdQA, NoProgressPatterns(noQA));
    var session, killed;
    session, sent, killed := PollWhileRunning(t, search, polls);
    if killed {
      return Failure(HangTimeout(cmd, Tail(session.output, HangTailLength))), sent, count;
    }
    var stdoutErr := Received(session.output, final);
    r, count := Finish(cmd, stdoutErr, ec, simple, logOk, logAll, scan, search, errorsFound);
  }
}
