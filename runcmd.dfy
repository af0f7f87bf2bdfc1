/**
 * Blocking Command Runner and Output Error Scanner: the result mapping at
 * the end of `run_cmd` (shared with `run_cmd_qa`) and `parselogForError`
 * in easybuild/tools/filetools.py. Spawning, polling and reading the
 * process are not modelled; their observable results (the chunks read
 * while the process ran, the final read, the exit code) are inputs.
 */
module RunCmd {
  import opened Wrappers
  import opened Strings

  /** Whether `re.compile(pattern).search(text)` finds a match, left uninterpreted. */
  type Matcher = (string, string) -> bool

  /**
   * What a shell command that `run_cmd` returns from produced: merged
   * output and exit code. The polling loop is only left on a non-negative
   * code (`SignalledChildKeepsPolling`), so the code is a `nat`.
   */
  datatype Execution = Execution(output: string, exitCode: nat)

  /** `run_cmd`'s return value: a boolean in simple mode, else `(output, exitcode)`. */
  datatype RunResult = Succeeded(ok: bool) | Captured(output: string, exitCode: int)

  /** The `regexp` argument of `parselogForError`: `True`, a pattern string, or anything else. */
  datatype RegExpArg = DefaultPattern | Pattern(pattern: string) | NotAPattern

  /** Python's inline flag for `re.I`: `re.compile("(?i)" + p)` searches as `re.compile(p, re.I)` does. */
  const IgnoreCaseFlag: string := "(?i)"

  /**
   * The pattern `parselogForError` compiles for a usable `regexp` argument,
   * with its `re.I` flag written in front as `IgnoreCaseFlag`.
   */
  function PatternOf(regExp: RegExpArg): (r: string)
    requires !regExp.NotAPattern?
    ensures StartsWith(r, IgnoreCaseFlag)
    ensures regExp.Pattern? ==> r[|IgnoreCaseFlag|..] == regExp.pattern
  {
    IgnoreCaseFlag + (if regExp.DefaultPattern? then DefaultErrorPattern else regExp.pattern)
  }

  /**
   * The `regexp` argument of the runners: false (no scan), `True`, a
   * pattern `str`, or some other true value (a `unicode` pattern, say),
   * which `parselogForError` rejects.
   */
  datatype ScanOption = NoScan | ScanDefault | ScanWith(pattern: string) | ScanInvalid

  /** `if regexp:` is taken: the argument is `True`, a non-empty pattern, or another true value. */
  predicate Scans(scan: ScanOption) {
    scan.ScanDefault? || (scan.ScanWith? && scan.pattern != []) || scan.ScanInvalid?
  }

  /** `if regexp:` is taken with an argument `parselogForError` accepts. */
  predicate ScansUsable(scan: ScanOption) {
    Scans(scan) && !scan.ScanInvalid?
  }

  /** The built-in case-insensitive failure pattern. */
  const DefaultErrorPattern: string := "(?<![(,]|\\w)(?:error|segmentation fault|failed)(?![(,]|\\.?\\w)"

  /**
   * The verdict of a finished command. A non-zero exit code is an error
   * whenever `log_ok` or `log_all` is set (the logger raises); otherwise
   * simple mode gives `ec == 0` and full mode gives the output and code.
   */
  function FinishRun(cmd: string, output: string, ec: int, simple: bool, logOk: bool, logAll: bool)
    : (r: Result<RunResult, Error>)
    ensures r.Failure? <==> ec != 0 && (logOk || logAll)
    ensures r.Failure? ==> r.error == NonZeroExit(cmd, ec, output)
    ensures r.Success? && simple ==> r.value == Succeeded(ec == 0)
    ensures r.Success? && !simple ==> r.value == Captured(output, ec)
    ensures simple && (logOk || logAll) ==> r != Success(Succeeded(false))
  {
    if ec != 0 && (logOk || logAll) then Failure(NonZeroExit(cmd, ec, output))
    else if simple then Success(Succeeded(ec == 0))
    else Success(Captured(output, ec))
  }

  /** The lines of `lines` that `pattern` finds a match in, in order. */
  function MatchingLines(lines: seq<string>, pattern: string, search: Matcher): (r: seq<string>)
    ensures |r| <= |lines|
    ensures forall k :: 0 <= k < |r| ==> search(pattern, r[k]) && r[k] in lines
    ensures forall k :: 0 <= k < |lines| && search(pattern, lines[k]) ==> lines[k] in r
  {
    if lines == [] then []
    else
      var rest := MatchingLines(lines[1..], pattern, search);
      assert forall k :: 1 <= k < |lines| ==> lines[k] == lines[1..][k - 1];
      if search(pattern, lines[0]) then [lines[0]] + rest else rest
  }

  lemma MatchingLinesAppend(lines: seq<string>, l: string, pattern: string, search: Matcher)
    ensures MatchingLines(lines + [l], pattern, search)
         == MatchingLines(lines, pattern, search) + (if search(pattern, l) then [l] else [])
  {
    if lines != [] {
      MatchingLinesAppend(lines[1..], l, pattern, search);
      assert (lines + [l])[1..] == lines[1..] + [l];
    }
  }

  /**
   * `parselogForError`: every line of `txt` the pattern matches, and the
   * diagnostic counter (passed in and returned, instead of the module
   * global) raised by one per matching line.
   */
  method ParseLogForError(txt: string, regExp: RegExpArg, search: Matcher, errorsFound: nat)
    returns (r: Result<seq<string>, Error>, count: nat)
    ensures regExp.NotAPattern? ==> r == Failure(InvalidRegExp) && count == errorsFound
    ensures !regExp.NotAPattern? ==>
      r == Success(MatchingLines(Split(txt, '\n'), PatternOf(regExp), search))
      && count == errorsFound + |r.value|
  {
    if regExp.NotAPattern? {
      return Failure(InvalidRegExp), errorsFound;
    }
    var pattern := PatternOf(regExp);
    var lines := Split(txt, '\n');
    var res: seq<string> := [];
    count := errorsFound;
    var i := 0;
    while i < |lines|
      invariant 0 <= i <= |lines|
      invariant res == MatchingLines(lines[..i], pattern, search)
      invariant count == errorsFound + |res|
    {
      var l := lines[i];
      MatchingLinesAppend(lines[..i], l, pattern, search);
      assert lines[..i + 1] == lines[..i] + [l];
      if search(pattern, l) {
        res := res + [l];
        count := count + 1;
      }
      i := i + 1;
    }
    assert lines[..i] == lines;
    r := Success(res);
  }

  /** The `regexp` argument as `parselogForError` receives it. */
  function ScanArg(scan: ScanOption): RegExpArg
    requires Scans(scan)
  {
    if scan.ScanDefault? then DefaultPattern
    else if scan.ScanWith? then Pattern(scan.pattern)
    else NotAPattern
  }

  /**
   * The common tail of both runners, once the process has exited: the
   * exit-code check (which raises before anything else), the advisory
   * error scan (which raises on an argument it rejects), then the result
   * mapping.
   */
  method Finish(cmd: string, output: string, ec: int, simple: bool, logOk: bool, logAll: bool,
                scan: ScanOption, search: Matcher, errorsFound: nat)
    returns (r: Result<RunResult, Error>, count: nat)
    ensures var v := FinishRun(cmd, output, ec, simple, logOk, logAll);
      && (v.Failure? || !Scans(scan) ==> r == v && count == errorsFound)
      && (v.Success? && scan.ScanInvalid? ==> r == Failure(InvalidRegExp) && count == errorsFound)
      && (v.Success? && ScansUsable(scan) ==>
            r == v && count == errorsFound + |MatchingLines(Split(output, '\n'), PatternOf(ScanArg(scan)), search)|)
  {
    count := errorsFound;
    r := FinishRun(cmd, output, ec, simple, logOk, logAll);
    if r.Failure? {
      return;
    }
    if Scans(scan) {
      var res, c := ParseLogForError(output, ScanArg(scan), search, errorsFound);
      count := c;
      if res.Failure? {
        r := Failure(res.error);
      }
    }
  }

  lemma ConcatAppend(parts: seq<string>, p: string)
    ensures Concat(parts + [p]) == Concat(parts) + p
  {
    if parts != [] {
      ConcatAppend(parts[1..], p);
      assert (parts + [p])[1..] == parts[1..] + [p];
    }
  }

  /**
   * `run_cmd`: the output is everything drained while the process ran
   * followed by the final read; the verdict and counter come from `Finish`.
   * `ec` is the code the polling loop left on, which as written is never
   * negative (`SignalledChildKeepsPolling`).
   */
  method Run(cmd: string, chunks: seq<string>, rest: string, ec: int, simple: bool, logOk: bool,
             logAll: bool, scan: ScanOption, search: Matcher, errorsFound: nat)
    returns (r: Result<RunResult, Error>, count: nat)
    requires ec >= 0
    ensures var out := Concat(chunks) + rest;
      var v := FinishRun(cmd, out, ec, simple, logOk, logAll);
      && (v.Failure? || !Scans(scan) ==> r == v && count == errorsFound)
      && (v.Success? && scan.ScanInvalid? ==> r == Failure(InvalidRegExp) && count == errorsFound)
      && (v.Success? && ScansUsable(scan) ==>
            r == v && count == errorsFound + |MatchingLines(Split(out, '\n'), PatternOf(ScanArg(scan)), search)|)
  {
    var stdouterr := "";
    var i := 0;
    while i < |chunks|
      invariant 0 <= i <= |chunks|
      invariant stdouterr == Concat(chunks[..i])
    {
      ConcatAppend(chunks[..i], chunks[i]);
      assert chunks[..i + 1] == chunks[..i] + [chunks[i]];
      stdouterr := stdouterr + chunks[i];
      i := i + 1;
    }
    assert chunks[..i] == chunks;
    stdouterr := stdouterr + rest;
    r, count := Finish(cmd, stdouterr, ec, simple, logOk, logAll, scan, search, errorsFound);
  }

  /**
   * The condition of the polling loops, `ec < 0` on what `p.poll()` gave:
   * Python 2 orders `None` (still running) below every number, so the loop
   * also goes on for the negative code of a child killed by a signal.
   */
  predicate KeepsPollingAsWritten(ec: Option<int>) {
    ec.None? || ec.value < 0
  }

  /** The intended condition: poll while the process has not exited. */
  predicate KeepsPolling(ec: Option<int>) {
    ec.None?
  }

  /** The poll, among the successive results of `p.poll()`, at which the loop ends, if it ends on them. */
  function LoopExit(polls: seq<Option<int>>, keep: Option<int> -> bool): (r: Option<nat>)
    ensures r.None? <==> forall k :: 0 <= k < |polls| ==> keep(polls[k])
    ensures r.Some? ==> r.value < |polls| && !keep(polls[r.value])
    ensures r.Some? ==> forall k :: 0 <= k < r.value ==> keep(polls[k])
  {
    if polls == [] then None
    else if !keep(polls[0]) then Some(0)
    else
      var rest := LoopExit(polls[1..], keep);
      assert forall k :: 1 <= k < |polls| ==> polls[k] == polls[1..][k - 1];
      if rest.Some? then Some(rest.value + 1) else None
  }

  /**
   * The loop as written: after `running` polls of a live process, a
   * process that exited with a non-negative code ends the loop at once,
   * while one killed by signal `sig` (whose `poll()` gives `-sig` from
   * then on) never does, however many polls follow.
   */
  lemma SignalledChildKeepsPolling(running: nat, code: int, after: nat)
    ensures var live := seq(running, _ => None);
      && (code >= 0 ==> LoopExit(live + [Some(code)], KeepsPollingAsWritten) == Some(running))
      && (code < 0 ==> LoopExit(live + seq(after, _ => Some(code)), KeepsPollingAsWritten).None?)
  {
    var live: seq<Option<int>> := seq(running, _ => None);
    if code >= 0 {
      var polls := live + [Some(code)];
      assert forall k :: 0 <= k < running ==> polls[k] == None;
      assert polls[running] == Some(code) && !KeepsPollingAsWritten(polls[running]);
      var r := LoopExit(polls, KeepsPollingAsWritten);
      assert r.Some? && !(r.value < running) && !(r.value > running);
    } else {
      var polls := live + seq(after, _ => Some(code));
      assert forall k :: 0 <= k < |polls| ==> polls[k] == None || polls[k] == Some(code);
    }
  }

  /**
   * The intended loop ends at the first poll that reports an exit, whatever
   * the sign of its code, so a signalled child is reported, not waited on.
   */
  lemma ExitedChildLeaves(running: nat, code: int, after: seq<Option<int>>)
    ensures LoopExit(seq(running, _ => None) + [Some(code)] + after, KeepsPolling) == Some(running)
  {
    var polls := seq(running, _ => None) + [Some(code)] + after;
    assert forall k :: 0 <= k < running ==> polls[k] == None;
    assert polls[running] == Some(code);
  }
}
