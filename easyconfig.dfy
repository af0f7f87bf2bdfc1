/**
 * `EasyConfigParser` in easybuild/framework/easyconfig/parser.py: where the
 * raw text of an easyconfig comes from, and the comment scan that files
 * every comment line under `header`, `above` (a block of comment and blank
 * lines preceding a `key = value` line) or `inline` (text after the last
 * `#` of a definition line).
 */
module EasyConfig {
  import opened Wrappers
  import opened Strings

  /**
   * What the formatter's parsed dictionary answers for each key: whether a
   * given text is `in` that key's value (a substring of a string value, an
   * element of a list value).
   */
  type ConfigDict = map<string, string -> bool>

  /** The three comment collections. Keys keep their last assignment. */
  datatype Comments = Comments(header: seq<string>, inline: map<string, string>, above: map<string, seq<string>>)

  const NoComments := Comments([], map[], map[])

  /** `line.startswith('#')`. */
  predicate IsCommentLine(line: string) {
    line != [] && line[0] == '#'
  }

  /** A line that continues a comment block: a comment line or an empty one. */
  predicate IsBlockLine(line: string) {
    IsCommentLine(line) || line == []
  }

  /** `line.split('=', 1)[0].strip()`. */
  function KeyOf(line: string): string {
    Trim(Before(line, '='))
  }

  /** `line.rsplit('#', 1)[1].strip()` for a line holding a `#`. */
  function InlineText(line: string): string {
    if '#' in line then Trim(AfterLast(line, '#')) else []
  }

  /** The first line from `i` on that does not continue a block, if any. */
  function BlockEnd(raw: seq<string>, i: nat): (r: Option<nat>)
    requires i <= |raw|
    ensures r.None? <==> forall m :: i <= m < |raw| ==> IsBlockLine(raw[m])
    ensures r.Some? ==> i <= r.value < |raw| && !IsBlockLine(raw[r.value])
    ensures r.Some? ==> forall m :: i <= m < r.value ==> IsBlockLine(raw[m])
    decreases |raw| - i
  {
    if i == |raw| then None
    else if !IsBlockLine(raw[i]) then Some(i)
    else BlockEnd(raw, i + 1)
  }

  /**
   * `_extract_comments` from line `i` on, in header mode or not, with the
   * comments found so far. Running past the last line inside a comment
   * block is an `IndexError`; looking up a key the dictionary lacks is a
   * `KeyError`. `keyOf` and `textOf` read the key and the inline comment
   * of a line (`KeyOf` and `InlineText`).
   */
  function Scanned(raw: seq<string>, i: nat, header: bool, c: Comments, config: ConfigDict,
                   keyOf: string -> string, textOf: string -> string): Result<Comments, Error>
    requires i <= |raw|
    decreases |raw| - i
  {
    if i == |raw| then Success(c)
    else if IsCommentLine(raw[i]) && header then
      Scanned(raw, i + 1, true, c.(header := c.header + [raw[i]]), config, keyOf, textOf)
    else if IsCommentLine(raw[i]) then
      match BlockEnd(raw, i)
      case None => Failure(IndexOutOfRange)
      case Some(j) => Scanned(raw, j + 1, false, c.(above := c.above[keyOf(raw[j]) := raw[i..j]]), config, keyOf, textOf)
    else if '#' in raw[i] then
      var comment := textOf(raw[i]);
      var key := keyOf(raw[i]);
      if key !in config then Failure(KeyNotFound(key))
      else if !config[key](RemoveQuotes(comment)) then
        Scanned(raw, i + 1, false, c.(inline := c.inline[key := "# " + comment]), config, keyOf, textOf)
      else Scanned(raw, i + 1, false, c, config, keyOf, textOf)
    else Scanned(raw, i + 1, false, c, config, keyOf, textOf)
  }

  /** The lines of the raw content, `rawcontent.split('\n')`. */
  function Lines(rawcontent: string): seq<string> {
    Split(rawcontent, '\n')
  }

  /** The comments of a whole text. */
  function CommentsOf(rawcontent: string, config: ConfigDict): Result<Comments, Error> {
    Scanned(Lines(rawcontent), 0, true, NoComments, config, KeyOf, InlineText)
  }

  /**
   * Where the constructor takes the raw content from: the given content
   * first, else the file (which must exist), else nothing at all.
   */
  function InitialContent(filename: Option<string>, rawcontent: Option<string>, files: map<string, string>): (r: Result<string, Error>)
    ensures rawcontent.Some? ==> r == Success(rawcontent.value)
    ensures rawcontent.None? && filename.Some? && filename.value in files ==> r == Success(files[filename.value])
    ensures rawcontent.None? && filename.Some? && filename.value !in files ==> r == Failure(MissingFile(filename.value))
    ensures rawcontent.None? && filename.None? ==> r == Failure(NoContent)
  {
    match rawcontent
    case Some(content) => Success(content)
    case None =>
      match filename
      case None => Failure(NoContent)
      case Some(fn) => if fn in files then Success(files[fn]) else Failure(MissingFile(fn))
  }

  class EasyConfigParser {
    /** The unparsed content. */
    var rawcontent: string
    /** What `get_config_dict()` returns for the parsed content. */
    var configDict: ConfigDict
    /** Comments and where they were found. */
    var comments: Comments

    /**
     * The object as `__init__` has it just before `_extract_comments`: the
     * content and dictionary set, no comments yet. It is not yet `Valid()`;
     * `Open`, which runs the scan, is how a usable parser is made.
     */
    constructor (rawcontent: string, configDict: ConfigDict)
      ensures this.rawcontent == rawcontent && this.configDict == configDict
      ensures comments == NoComments
    {
      this.rawcontent := rawcontent;
      this.configDict := configDict;
      comments := NoComments;
    }

    /**
     * `__init__`: take the content from `rawcontent` or from the file, then
     * extract the comments; any failure along the way is the constructor's.
     */
    static method Open(filename: Option<string>, rawcontent: Option<string>, files: map<string, string>, configDict: ConfigDict)
      returns (r: Result<EasyConfigParser, Error>)
      ensures InitialContent(filename, rawcontent, files).Failure? ==>
        r == Failure(InitialContent(filename, rawcontent, files).error)
      ensures InitialContent(filename, rawcontent, files).Success? ==>
        var content := InitialContent(filename, rawcontent, files).value;
        && (CommentsOf(content, configDict).Failure? ==> r == Failure(CommentsOf(content, configDict).error))
        && (CommentsOf(content, configDict).Success? ==>
              && r.Success? && fresh(r.value)
              && r.value.rawcontent == content
              && r.value.configDict == configDict
              && r.value.comments == CommentsOf(content, configDict).value
              && r.value.Valid())
    {
      var content := InitialContent(filename, rawcontent, files);
      if content.Failure? {
        return Failure(content.error);
      }
      var p := new EasyConfigParser(content.value, configDict);
      var outcome := p.ExtractComments();
      if outcome.Fail? {
        return Failure(outcome.error);
      }
      return Success(p);
    }

    /**
     * `_extract_comments`: scan the lines once, collecting header lines
     * while they last, blocks above keys and inline comments.
     */
    method ExtractComments() returns (outcome: Outcome<Error>)
      modifies this
      ensures rawcontent == old(rawcontent) && configDict == old(configDict)
      ensures CommentsOf(rawcontent, configDict).Failure? ==>
        outcome == Fail(CommentsOf(rawcontent, configDict).error)
      ensures CommentsOf(rawcontent, configDict).Success? ==>
        outcome.Pass? && comments == CommentsOf(rawcontent, configDict).value
    {
      comments := NoComments;
      var raw := Lines(rawcontent);
      var header := true;
      var i := 0;
      while i < |raw|
        invariant i <= |raw|
        invariant rawcontent == old(rawcontent) && configDict == old(configDict)
        invariant CommentsOf(rawcontent, configDict) == Scanned(raw, i, header, comments, configDict, KeyOf, InlineText)
        decreases |raw| - i
      {
        if IsCommentLine(raw[i]) && header {
          comments := comments.(header := comments.header + [raw[i]]);
        } else {
          header := false;
          if IsCommentLine(raw[i]) {
            var start := i;
            var comment;
            i, comment := ReadBlock(raw, start);
            if i == |raw| {
              return Fail(IndexOutOfRange);
            }
            comments := comments.(above := comments.above[KeyOf(raw[i]) := comment]);
          } else if '#' in raw[i] {
            var comment := InlineText(raw[i]);
            var key := KeyOf(raw[i]);
            if key !in configDict {
              return Fail(KeyNotFound(key));
            }
            if !configDict[key](RemoveQuotes(comment)) {
              comments := comments.(inline := comments.inline[key := "# " + comment]);
            }
          }
        }
        i := i + 1;
      }
      outcome := Pass;
    }

    /** The comments are those of the raw content, as every parser `Open` returns has them. */
    predicate Valid()
      reads this
    {
      CommentsOf(rawcontent, configDict) == Success(comments)
    }

    /**
     * `get_comments`: the parser's comments as a value, detached from this
     * parser (a deep copy): the leading comment lines as header, and only
     * entries backed by the lines they came from.
     */
    function GetComments(): (c: Comments)
      reads this
      requires Valid()
      ensures c == comments
      ensures c.header == Lines(rawcontent)[..HeaderEnd(Lines(rawcontent), 0)]
      ensures Sound(Lines(rawcontent), c, configDict, KeyOf, InlineText)
    {
      HeaderIsLeadingComments(rawcontent, configDict);
      CommentsSound(rawcontent, configDict);
      comments
    }
  }

  /**
   * The inner loop of `_extract_comments`: gather the comment and blank
   * lines from `start` on. Ending at `|raw|` means the source would index
   * past the last line.
   */
  method ReadBlock(raw: seq<string>, start: nat) returns (i: nat, comment: seq<string>)
    requires start <= |raw|
    ensures start <= i <= |raw| && comment == raw[start..i]
    ensures i == |raw| ==> BlockEnd(raw, start).None?
    ensures i < |raw| ==> BlockEnd(raw, start) == Some(i)
  {
    i := start;
    comment := [];
    while true
      invariant start <= i <= |raw|
      invariant comment == raw[start..i]
      invariant forall m :: start <= m < i ==> IsBlockLine(raw[m])
      decreases |raw| - i
    {
      if i == |raw| {
        return;
      }
      if !IsBlockLine(raw[i]) {
        break;
      }
      comment := comment + [raw[i]];
      i := i + 1;
    }
    BlockEndAt(raw, start, i);
  }

  /** `BlockEnd` finds the first line that ends a run of block lines. */
  lemma {:induction false} BlockEndAt(raw: seq<string>, start: nat, i: nat)
    requires start <= i < |raw| && !IsBlockLine(raw[i])
    requires forall m :: start <= m < i ==> IsBlockLine(raw[m])
    ensures BlockEnd(raw, start) == Some(i)
    decreases i - start
  {
    if start < i {
      BlockEndAt(raw, start + 1, i);
    }
  }

  /** One past the leading run of comment lines from `i`. */
  function HeaderEnd(raw: seq<string>, i: nat): (r: nat)
    requires i <= |raw|
    ensures i <= r <= |raw|
    ensures forall m :: i <= m < r ==> IsCommentLine(raw[m])
    ensures r < |raw| ==> !IsCommentLine(raw[r])
    decreases |raw| - i
  {
    if i == |raw| || !IsCommentLine(raw[i]) then i else HeaderEnd(raw, i + 1)
  }

  /** Out of header mode the header no longer changes. */
  lemma {:induction false} HeaderFrozen(raw: seq<string>, i: nat, c: Comments, config: ConfigDict,
                                           keyOf: string -> string, textOf: string -> string)
    requires i <= |raw|
    requires Scanned(raw, i, false, c, config, keyOf, textOf).Success?
    ensures Scanned(raw, i, false, c, config, keyOf, textOf).value.header == c.header
    decreases |raw| - i
  {
    if i < |raw| {
      if IsCommentLine(raw[i]) {
        var j := BlockEnd(raw, i).value;
        HeaderFrozen(raw, j + 1, c.(above := c.above[keyOf(raw[j]) := raw[i..j]]), config, keyOf, textOf);
      } else if '#' in raw[i] {
        var key := keyOf(raw[i]);
        if !config[key](RemoveQuotes(textOf(raw[i]))) {
          HeaderFrozen(raw, i + 1, c.(inline := c.inline[key := "# " + textOf(raw[i])]), config, keyOf, textOf);
        } else {
          HeaderFrozen(raw, i + 1, c, config, keyOf, textOf);
        }
      } else {
        HeaderFrozen(raw, i + 1, c, config, keyOf, textOf);
      }
    }
  }

  /** In header mode, the header grows by exactly the leading comment lines. */
  lemma {:induction false} HeaderRun(raw: seq<string>, i: nat, c: Comments, config: ConfigDict,
                                        keyOf: string -> string, textOf: string -> string)
    requires i <= |raw|
    requires Scanned(raw, i, true, c, config, keyOf, textOf).Success?
    ensures Scanned(raw, i, true, c, config, keyOf, textOf).value.header == c.header + raw[i..HeaderEnd(raw, i)]
    decreases |raw| - i
  {
    if i == |raw| {
    } else if IsCommentLine(raw[i]) {
      var c' := c.(header := c.header + [raw[i]]);
      HeaderRun(raw, i + 1, c', config, keyOf, textOf);
      assert raw[i..HeaderEnd(raw, i)] == [raw[i]] + raw[i + 1..HeaderEnd(raw, i + 1)];
    } else {
      assert Scanned(raw, i, true, c, config, keyOf, textOf) == Scanned(raw, i, false, c, config, keyOf, textOf);
      HeaderFrozen(raw, i, c, config, keyOf, textOf);
    }
  }

  /** The header is the run of comment lines the text starts with. */
  lemma HeaderIsLeadingComments(rawcontent: string, config: ConfigDict)
    requires CommentsOf(rawcontent, config).Success?
    ensures CommentsOf(rawcontent, config).value.header == Lines(rawcontent)[..HeaderEnd(Lines(rawcontent), 0)]
  {
    HeaderRun(Lines(rawcontent), 0, NoComments, config, KeyOf, InlineText);
  }

  /** `raw[j..k]` is a comment block, started by a comment line, ending just above the line of `key`. */
  predicate AboveFrom(raw: seq<string>, keyOf: string -> string, key: string, block: seq<string>, j: int, k: int) {
    && 0 <= j < k < |raw|
    && IsCommentLine(raw[j])
    && block == raw[j..k]
    && (forall m :: j <= m < k ==> IsBlockLine(raw[m]))
    && !IsBlockLine(raw[k])
    && keyOf(raw[k]) == key
  }

  /** Line `m` defines `key` and ends in the inline comment `text`, which the value does not hold. */
  predicate InlineFrom(raw: seq<string>, keyOf: string -> string, textOf: string -> string, config: ConfigDict,
                       key: string, text: string, m: int) {
    && 0 <= m < |raw|
    && !IsCommentLine(raw[m])
    && '#' in raw[m]
    && keyOf(raw[m]) == key
    && key in config
    && text == "# " + textOf(raw[m])
    && !config[key](RemoveQuotes(textOf(raw[m])))
  }

  /** Every `above` and `inline` entry is backed by the lines it came from. */
  ghost predicate Sound(raw: seq<string>, c: Comments, config: ConfigDict, keyOf: string -> string, textOf: string -> string) {
    && (forall key :: key in c.above ==> exists j, k :: AboveFrom(raw, keyOf, key, c.above[key], j, k))
    && (forall key :: key in c.inline ==> exists m :: InlineFrom(raw, keyOf, textOf, config, key, c.inline[key], m))
  }

  /** Recording a block keeps the comments sound. */
  lemma AboveAdd(raw: seq<string>, c: Comments, config: ConfigDict, keyOf: string -> string, textOf: string -> string,
                 j: int, k: int)
    requires Sound(raw, c, config, keyOf, textOf)
    requires 0 <= j < k < |raw| && AboveFrom(raw, keyOf, keyOf(raw[k]), raw[j..k], j, k)
    ensures Sound(raw, c.(above := c.above[keyOf(raw[k]) := raw[j..k]]), config, keyOf, textOf)
  {
    var c' := c.(above := c.above[keyOf(raw[k]) := raw[j..k]]);
    forall key | key in c'.above
      ensures exists j', k' :: AboveFrom(raw, keyOf, key, c'.above[key], j', k')
    {
      if key == keyOf(raw[k]) {
        assert AboveFrom(raw, keyOf, key, c'.above[key], j, k);
      } else {
        assert c'.above[key] == c.above[key];
      }
    }
  }

  /** Recording an inline comment keeps the comments sound. */
  lemma InlineAdd(raw: seq<string>, c: Comments, config: ConfigDict, keyOf: string -> string, textOf: string -> string,
                  m: int)
    requires Sound(raw, c, config, keyOf, textOf)
    requires 0 <= m < |raw| && InlineFrom(raw, keyOf, textOf, config, keyOf(raw[m]), "# " + textOf(raw[m]), m)
    ensures Sound(raw, c.(inline := c.inline[keyOf(raw[m]) := "# " + textOf(raw[m])]), config, keyOf, textOf)
  {
    var c' := c.(inline := c.inline[keyOf(raw[m]) := "# " + textOf(raw[m])]);
    forall key | key in c'.inline
      ensures exists m' :: InlineFrom(raw, keyOf, textOf, config, key, c'.inline[key], m')
    {
      if key == keyOf(raw[m]) {
        assert InlineFrom(raw, keyOf, textOf, config, key, c'.inline[key], m);
      } else {
        assert c'.inline[key] == c.inline[key];
      }
    }
  }

  /** The scan only ever records entries backed by the lines. */
  lemma {:induction false} ScannedSound(raw: seq<string>, i: nat, header: bool, c: Comments, config: ConfigDict,
                                        keyOf: string -> string, textOf: string -> string)
    requires i <= |raw|
    requires Sound(raw, c, config, keyOf, textOf)
    requires Scanned(raw, i, header, c, config, keyOf, textOf).Success?
    ensures Sound(raw, Scanned(raw, i, header, c, config, keyOf, textOf).value, config, keyOf, textOf)
    decreases |raw| - i
  {
    if i == |raw| {
    } else if IsCommentLine(raw[i]) && header {
      ScannedSound(raw, i + 1, true, c.(header := c.header + [raw[i]]), config, keyOf, textOf);
    } else if IsCommentLine(raw[i]) {
      var k := BlockEnd(raw, i).value;
      AboveAdd(raw, c, config, keyOf, textOf, i, k);
      ScannedSound(raw, k + 1, false, c.(above := c.above[keyOf(raw[k]) := raw[i..k]]), config, keyOf, textOf);
    } else if '#' in raw[i] {
      var key := keyOf(raw[i]);
      if !config[key](RemoveQuotes(textOf(raw[i]))) {
        InlineAdd(raw, c, config, keyOf, textOf, i);
        ScannedSound(raw, i + 1, false, c.(inline := c.inline[key := "# " + textOf(raw[i])]), config, keyOf, textOf);
      } else {
        ScannedSound(raw, i + 1, false, c, config, keyOf, textOf);
      }
    } else {
      ScannedSound(raw, i + 1, false, c, config, keyOf, textOf);
    }
  }

  /**
   * Every comment block filed under a key sits right above that key's
   * line and starts with a `#` line; every inline comment is the text
   * after the last `#` of its key's line, and the value of that key does
   * not contain it.
   */
  lemma CommentsSound(rawcontent: string, config: ConfigDict)
    requires CommentsOf(rawcontent, config).Success?
    ensures Sound(Lines(rawcontent), CommentsOf(rawcontent, config).value, config, KeyOf, InlineText)
  {
    ScannedSound(Lines(rawcontent), 0, true, NoComments, config, KeyOf, InlineText);
  }

  /** Splitting newline-joined lines gives them back. */
  lemma {:induction false} LinesOfJoin(lines: seq<string>)
    requires |lines| >= 1
    requires forall k :: 0 <= k < |lines| ==> '\n' !in lines[k]
    ensures Lines(Join(lines, "\n")) == lines
    decreases |lines|
  {
    if |lines| == 1 {
      SplitWithout(lines[0], '\n');
    } else {
      var rest := Join(lines[1..], "\n");
      LinesOfJoin(lines[1..]);
      assert Join(lines, "\n") == lines[0] + ['\n'] + rest;
      SplitAround(lines[0], '\n', rest);
      SplitWithout(lines[0], '\n');
      assert Split(lines[0] + ['\n'] + rest, '\n') == [lines[0]] + lines[1..];
      assert [lines[0]] + lines[1..] == lines;
    }
  }

  /**
   * A text whose last comment block is not in the header and runs to the
   * end (a file ending in `# comment` and a newline) makes the scan index
   * past the last line.
   */
  lemma TrailingCommentFails(line: string, comment: string, config: ConfigDict)
    requires !IsBlockLine(line) && '#' !in line && '\n' !in line
    requires IsCommentLine(comment) && '\n' !in comment
    ensures CommentsOf(Join([line, comment, ""], "\n"), config) == Failure(IndexOutOfRange)
  {
    var raw := [line, comment, ""];
    LinesOfJoin(raw);
    assert BlockEnd(raw, 1).None?;
    assert Scanned(raw, 1, false, NoComments, config, KeyOf, InlineText) == Failure(IndexOutOfRange);
    assert Scanned(raw, 0, true, NoComments, config, KeyOf, InlineText) == Failure(IndexOutOfRange);
  }

  /** `KeyLineInlineSkipped` for any way of reading keys and comments. */
  lemma KeyLineSkippedWith(line: string, comment: string, keyLine: string, config: ConfigDict,
                           keyOf: string -> string, textOf: string -> string)
    requires !IsBlockLine(line) && '#' !in line
    requires IsCommentLine(comment) && !IsBlockLine(keyLine)
    ensures Scanned([line, comment, keyLine], 0, true, NoComments, config, keyOf, textOf)
         == Success(Comments([], map[], map[keyOf(keyLine) := [comment]]))
  {
    var raw := [line, comment, keyLine];
    var c := Comments([], map[], map[keyOf(keyLine) := [comment]]);
    assert BlockEnd(raw, 2) == Some(2);
    assert BlockEnd(raw, 1) == Some(2);
    assert raw[1..2] == [comment];
    assert NoComments.(above := NoComments.above[keyOf(raw[2]) := raw[1..2]]) == c;
    assert Scanned(raw, 1, false, NoComments, config, keyOf, textOf) == Success(c);
  }

  /**
   * The line after a comment block is consumed with the block: its own
   * inline comment is neither recorded nor checked against the dictionary.
   */
  lemma KeyLineInlineSkipped(line: string, comment: string, keyLine: string, config: ConfigDict)
    requires !IsBlockLine(line) && '#' !in line && '\n' !in line
    requires IsCommentLine(comment) && '\n' !in comment
    requires !IsBlockLine(keyLine) && '#' in keyLine && '\n' !in keyLine
    ensures CommentsOf(Join([line, comment, keyLine], "\n"), config)
         == Success(Comments([], map[], map[KeyOf(keyLine) := [comment]]))
  {
    LinesOfJoin([line, comment, keyLine]);
    KeyLineSkippedWith(line, comment, keyLine, config, KeyOf, InlineText);
  }

  /** `InlineComment` for any way of reading keys and comments. */
  lemma InlineCommentWith(line: string, config: ConfigDict, keyOf: string -> string, textOf: string -> string)
    requires !IsCommentLine(line) && '#' in line
    ensures keyOf(line) !in config ==>
      Scanned([line], 0, true, NoComments, config, keyOf, textOf) == Failure(KeyNotFound(keyOf(line)))
    ensures keyOf(line) in config && !config[keyOf(line)](RemoveQuotes(textOf(line))) ==>
      Scanned([line], 0, true, NoComments, config, keyOf, textOf)
        == Success(NoComments.(inline := map[keyOf(line) := "# " + textOf(line)]))
    ensures keyOf(line) in config && config[keyOf(line)](RemoveQuotes(textOf(line))) ==>
      Scanned([line], 0, true, NoComments, config, keyOf, textOf) == Success(NoComments)
  {
  }

  /**
   * A single definition line with a `#`: a key the dictionary lacks is an
   * error; otherwise the comment is recorded exactly when the key's value
   * does not contain it (with quotes removed).
   */
  lemma InlineComment(line: string, config: ConfigDict)
    requires !IsCommentLine(line) && '#' in line && '\n' !in line
    ensures KeyOf(line) !in config ==> CommentsOf(line, config) == Failure(KeyNotFound(KeyOf(line)))
    ensures KeyOf(line) in config && !config[KeyOf(line)](RemoveQuotes(InlineText(line))) ==>
      CommentsOf(line, config) == Success(NoComments.(inline := map[KeyOf(line) := "# " + InlineText(line)]))
    ensures KeyOf(line) in config && config[KeyOf(line)](RemoveQuotes(InlineText(line))) ==>
      CommentsOf(line, config) == Success(NoComments)
  {
    SplitWithout(line, '\n');
    InlineCommentWith(line, config, KeyOf, InlineText);
  }
}
