# EasyBuild build-step helpers and easyconfig text processing, in Dafny

This project models two parts of the EasyBuild framework:

- **The build-step decision logic of `easybuild/tools/filetools.py`.**
  - The archive inspector (`extractCmd`) picks the command that unpacks a source file from its suffix.
  - The directory resolver (`findBaseDir`) descends through single-entry directories after unpacking.
  - The patch applier (`patch`) collects the `+++` lines of a unified diff. It guesses the strip level from them against the file system and builds the `patch -b -p<level> -i <path>` command.
  - The command runners (`run_cmd` and `run_cmd_qa`) end with the same exit-code check and result mapping. The interactive runner answers questions with a per-poll state machine. Its state is the output buffer, `oldLenOut` and `hitCount`, and it kills a command that stays silent too long.
  - Smaller helpers: `escapeSpecial`, `processQA`, `parselogForError` and `convertName`.
- **The line-oriented easyconfig processing of `easybuild/framework/easyconfig/parser.py`.**
  - `fetch_parameters_from_easyconfig` reads parameter values from the raw text.
  - The `EasyConfigParser` object takes its raw content from a string or a file. Its `_extract_comments` scanner files every comment line as a header comment, a block above a key, or an inline comment.

The model treats the outside world as data:

- The file system is a map from directories to their listings plus a set of files (`Paths.FileSystem`).
- A process is what it produced: the chunks read while it ran, a final read and an exit code.
- A regular-expression search is an uninterpreted `(pattern, text) -> bool` parameter (`RunCmd.Matcher`). The pattern strings themselves are built exactly as the source builds them. The `re.I` flag of `parselogForError` is written into its pattern as the inline `(?i)` flag, so one matcher serves both the case-sensitive question patterns and the case-insensitive error scan.
- The parser's parsed dictionary is a map from keys to a "contains" test (`EasyConfig.ConfigDict`).
- A `log.error` call raises in EasyBuild's logger, so every such path is a `Failure` carrying an `Error` value.

Modules:

- `Wrappers`: `Option`, `Result`, `Outcome` and the error values.
- `Strings`: Python string operations over `seq<char>`.
- `Paths`: the file system and `os.path.join`.
- `Archive`: the archive inspector.
- `BaseDirs`: the directory resolver.
- `Patching`: the patch applier.
- `RunCmd`: the result mapping and `parselogForError`.
- `QandA`: the interactive runner.
- `Names`: `convertName`.
- `FetchParams`: `fetch_parameters_from_easyconfig`.
- `EasyConfig`: the parser class and its comment scanner.

Where the code and its documentation disagree, or the code looks unintended, the model follows the code. Each row under "## Findings" names a member stating the behaviour as written and a corrected definition proved beside it; the operations themselves keep the code's behaviour.

- In `run_cmd_qa`, a poll whose buffer grew leaves `hitCount` unchanged (filetools.py:436-437).
- In `run_cmd_qa`, answers are only looked for after a read that returned text (the `tmpOut and` guard).
- A non-zero exit code is an error whenever `log_ok` (the default) or `log_all` is set. A plain `False` is returned only when both are off (filetools.py:289-290, 305-307).

## Model

| member | source | states |
|---|---|---|
| Archive.Tokens | easybuild/tools/filetools.py:95 | one lower-cased token per dot-separated piece of the name, in order |
| Archive.ExtractCmd | easybuild/tools/filetools.py:89-128 | a success is one of the eight command templates followed by the file name; a failure is the unknown-format error, or the missing second-to-last token of a dot-less `gz`/`bz2` name |
| Archive.CompressedCommand | easybuild/tools/filetools.py:99-110 | a `.gz` name gives `tar xzf` when the token before it is `tar` in any case and `gunzip` otherwise; a `.bz2` name gives `tar xjf` after a `tar` token and `bunzip2` otherwise |
| Archive.SuffixTable | easybuild/tools/filetools.py:103-126 | `tgz`/`gtgz` give `tar xzf`, `tbz` gives `tar xfj`, `tar` gives `tar xf`, `zip` gives `unzip -qq -o` exactly when overwriting and `unzip -qq` otherwise, and any other last token is an unknown format; the suffix is compared case-insensitively |
| Archive.BareCompressedName | easybuild/tools/filetools.py:99-109 | a dot-less name `gz` or `bz2` fails when the rule reads the token before the last one |
| Archive.LastTwoTokens | easybuild/tools/filetools.py:95 | the last two tokens of `pre + x + "." + y` are `x` and `y` lower-cased |
| BaseDirs.RemoveFirst | easybuild/tools/filetools.py:67-69 | `list.remove` leaves a list without `x` unchanged and adds nothing (which entry goes is `RemoveFirstSpec`) |
| BaseDirs.RemoveFirstSpec | easybuild/tools/filetools.py:67-69 | removing an `x` the list holds takes out exactly its first occurrence and keeps the other entries in order |
| BaseDirs.Purged | easybuild/tools/filetools.py:62-70 | the purged listing holds only entries of the listing (exactly which is `PurgedSpec`) |
| BaseDirs.PurgedSpec | easybuild/tools/filetools.py:62-70 | the purged listing is the listing itself when it holds no `easybuildlog`, and otherwise the listing without its first `easybuildlog`, the rest in order |
| BaseDirs.DescendN | easybuild/tools/filetools.py:74-83 | every successful run of descents ends in a directory |
| BaseDirs.BaseDirAsWritten | easybuild/tools/filetools.py:72-87 | the resolver as written returns the starting directory when the purged listing does not hold exactly one entry |
| BaseDirs.BaseDir | easybuild/tools/filetools.py:72-87 | the corrected resolver always returns a directory, and returns the start when the listing does not hold exactly one entry |
| BaseDirs.BaseDirIsDirectory | easybuild/tools/filetools.py:74-83 | the corrected result is a directory reached by some number of single-entry descents, from which no further descent is possible |
| BaseDirs.AsWrittenVsCorrected | easybuild/tools/filetools.py:72-87 | the source returns what the corrected resolver returns, except exactly when the directory reached has a single entry that is not a directory: then it returns that entry's path |
| BaseDirs.SoleFileReturned | easybuild/tools/filetools.py:75-77 | a directory whose only entry is a file makes the source return that file's path, where the corrected resolver returns the directory |
| BaseDirs.FindBaseDir | easybuild/tools/filetools.py:55-87 | the loop returns what the resolver as written specifies, and leaves the process in the directory the corrected resolver returns, the last one it entered |
| Patching.TakeNonSpace | easybuild/tools/filetools.py:174 | `\S+`: the longest whitespace-free prefix |
| Patching.FirstToken | easybuild/tools/filetools.py:174 | no token exactly when the text is all whitespace; otherwise the token is the longest whitespace-free run starting at the first non-whitespace position |
| Patching.PlusFile | easybuild/tools/filetools.py:174 | a file found on a line is a non-empty, whitespace-free name (which lines give which file is `PlusFileOf` and `PlusFileNone`) |
| Patching.PlusFileOf | easybuild/tools/filetools.py:174-181 | a line of optional indentation, `+++`, whitespace and a file name ended by whitespace or the line end yields that file name |
| Patching.PlusFileNone | easybuild/tools/filetools.py:174-181 | a line that, past its indentation, does not start with `+++` and whitespace yields no file |
| Patching.FoundAppend | easybuild/tools/filetools.py:179-183 | reading one more line appends that line's match, if any, to the collected names |
| Patching.CollectPlusLines | easybuild/tools/filetools.py:176-184 | the loop collects the `+++` file names of the patch in file order |
| Patching.FirstHit | easybuild/tools/filetools.py:201-204 | the depth found is the smallest one at which the stripped path exists, and none means no depth resolves |
| Patching.GuessedLevel | easybuild/tools/filetools.py:193-207 | the guessed level: the smallest resolving depth of the first `+++` path that resolves at any depth, as `GuessedLevelSpec` proves |
| Patching.GuessedLevelSpec | easybuild/tools/filetools.py:193-207 | no level exactly when no `+++` path resolves at any depth; otherwise the level is the smallest resolving depth of the first `+++` path that resolves, earlier paths never resolve, and the level is below that path's segment count |
| Patching.GuessLevel | easybuild/tools/filetools.py:193-207 | the nested loops with early exits compute the guessed level |
| Patching.PatchCommandRoundTrip | easybuild/tools/filetools.py:221 | the level and the absolute patch path can be read back from the built command |
| Patching.PatchCommand | easybuild/tools/filetools.py:221 | the command text `patch -b -p<level> -i <path>`, read back by `PatchCommandRoundTrip` |
| Patching.LevelAsWritten | easybuild/tools/filetools.py:169-219 | the selection as written: a level other than none or 0 is used unchanged, and a guessed level is never negative |
| Patching.PatchPlan | easybuild/tools/filetools.py:130-221 | the decision `patch` makes before running anything: a missing input, copy mode, the level selection as written, or the command; its cases are stated by `UnresolvedPatchFails`, `ExplicitLevelCommand`, `ZeroLevelGuesses` and `GuessedLevelCommand` |
| Patching.Level | easybuild/tools/filetools.py:169-219 | the corrected selection uses any given level unchanged and guesses a non-negative level only when none is given |
| Patching.ExplicitZeroIgnored | easybuild/tools/filetools.py:169 | with `+++ x/y/z` where only `y/z` exists, the source uses `-p1` for an explicit level 0, while the corrected selection uses 0 |
| Patching.ThreeSegments | easybuild/tools/filetools.py:197 | a three-segment path splits into its segments and re-joins from any depth |
| Patching.ExampleLevelOne | easybuild/tools/filetools.py:193-207 | a first `+++ x/y/z` where `y/z` exists but `x/y/z` does not guesses level 1, whatever follows |
| Patching.UnresolvedPatchFails | easybuild/tools/filetools.py:169-213 | with no level or level 0 and no `+++` path resolving, the patch fails with an undetermined level |
| Patching.ExplicitLevelCommand | easybuild/tools/filetools.py:215-221 | a given non-zero level goes unchanged into `patch -b -p<level> -i <absolute patch>` |
| Patching.ZeroLevelGuesses | easybuild/tools/filetools.py:169 | asking for level 0 plans exactly what asking for no level does: the level is guessed |
| Patching.GuessedLevelCommand | easybuild/tools/filetools.py:169-221 | with no level or level 0, a successful plan's command carries the level of the first resolving `+++` path and can be parsed back to it |
| Patching.Patch | easybuild/tools/filetools.py:130-227 | missing inputs, copy mode and level failures return before any command runs, with the counter unchanged; the level is guessed when none or 0 is given; otherwise the result is the run's failure, a patch failure when the run returns `False`, or success with the command, and the counter rises by the output lines the default error pattern matches unless the run failed; the process is left in the destination once the input checks pass outside copy mode |
| RunCmd.FinishRun | easybuild/tools/filetools.py:289-311 | a non-zero exit is an error exactly when `log_ok` or `log_all` is set; otherwise simple mode gives `ec == 0` and full mode gives the output and the code, so simple mode with logging never returns `False` |
| RunCmd.PatternOf | easybuild/tools/filetools.py:554-562 | the compiled pattern is the built-in failure pattern for `True` or the given string, preceded by the inline `(?i)` flag that stands for `re.I` |
| RunCmd.MatchingLines | easybuild/tools/filetools.py:564-569 | every returned line is a log line the pattern matches, and every matching log line is returned |
| RunCmd.MatchingLinesAppend | easybuild/tools/filetools.py:565-569 | scanning one more line adds it to the result exactly when it matches |
| RunCmd.ParseLogForError | easybuild/tools/filetools.py:545-578 | an argument that is neither `True` nor a string is an error; otherwise the result is the log lines the case-insensitive pattern matches, and the counter rises by their number |
| RunCmd.Finish | easybuild/tools/filetools.py:289-311 | a failed exit check, or no scan, gives `FinishRun`'s verdict with the counter unchanged; a true `regexp` that is neither `True` nor a string makes the run fail with the invalid-pattern error; otherwise the verdict is `FinishRun`'s and the counter rises by the lines the case-insensitive pattern matches |
| RunCmd.Run | easybuild/tools/filetools.py:271-311 | for the non-negative code the loop leaves on, the output is the drained chunks followed by the final read, and the verdict and counter are those `Finish` states on it |
| RunCmd.KeepsPollingAsWritten | easybuild/tools/filetools.py:272 | the loop condition `ec < 0` on a `poll()` result, with Python 2 ordering `None` below every number |
| RunCmd.LoopExit | easybuild/tools/filetools.py:272-276 | the poll at which the loop ends is the first whose result fails the loop condition, and there is none when every result passes it |
| RunCmd.SignalledChildKeepsPolling | easybuild/tools/filetools.py:270-276 | as written, a process that exits with a non-negative code ends the loop at that poll, while one killed by a signal, whose `poll()` stays negative, never ends it |
| RunCmd.ExitedChildLeaves | easybuild/tools/filetools.py:270-276 | the intended loop ends at the first poll that reports an exit, whatever the sign of the code |
| Names.NoOperatorsLeft | easybuild/tools/filetools.py:533-541 | the converted name, upper-cased or not, holds no `+` and no `-` |
| Names.OrderIndependent | easybuild/tools/filetools.py:533-538 | the result does not depend on the order in which the dictionary yields the two substitutions |
| Names.ConvertedLength | easybuild/tools/filetools.py:533-538 | each `+` lengthens the name by three and each `-` by two |
| Names.ConvertName | easybuild/tools/filetools.py:528-543 | the loop applies the substitutions, then upper-cases when asked; the result holds no `+` or `-` |
| QandA.EscapeSpecial | easybuild/tools/filetools.py:341-342 | escaping never shortens the text (what it does to each character is `EscapeSpecialSpec`) |
| QandA.EscapeSpecialConcat | easybuild/tools/filetools.py:341-342 | escaping the concatenation of two texts is escaping each and concatenating |
| QandA.EscapeSpecialSpec | easybuild/tools/filetools.py:341-342 | the empty text stays empty, and each character becomes a backslash followed by itself when it is one of `+?()[]*.\` and stays alone otherwise, in place between the escaped text before and after it |
| QandA.EscapeRoundTrip | easybuild/tools/filetools.py:341-342 | removing the escaping backslashes gives back the original: escaping loses no text |
| QandA.EscapePlain | easybuild/tools/filetools.py:341-342 | text without any of `+?()[]*.\` is unchanged |
| QandA.EscapeAll | easybuild/tools/filetools.py:348 | each whitespace-separated piece is escaped, in order |
| QandA.QuestionPattern | easybuild/tools/filetools.py:348-349 | the question pattern ends in the optional-whitespace anchor |
| QandA.QuestionPatternOfWords | easybuild/tools/filetools.py:344-349 | a question of space-separated words becomes the escaped words joined by the whitespace-run pattern, followed by the anchor |
| QandA.WithNewline | easybuild/tools/filetools.py:351-371 | the answer ends in a newline, extends the original, and is unchanged when it already ended in one |
| QandA.WithNewlineIdempotent | easybuild/tools/filetools.py:351-352 | normalising twice is normalising once |
| QandA.AssignLookup | easybuild/tools/filetools.py:363-372 | after assigning a pattern its answer, looking it up gives that answer and every other pattern is unaffected |
| QandA.AssignTerminated | easybuild/tools/filetools.py:363-372 | assigning a newline-terminated answer keeps every answer in the table terminated |
| QandA.FillFailure | easybuild/tools/filetools.py:361-363 | building a table fails exactly when some item is rejected, with the first rejected item's error |
| QandA.FillCovers | easybuild/tools/filetools.py:361-363 | after a successful build, every item is accepted, and its pattern maps to the answer of the last item filed under that pattern |
| QandA.FillKeys | easybuild/tools/filetools.py:361-363 | a built table holds no pattern that no item was filed under |
| QandA.FillTerminated | easybuild/tools/filetools.py:361-363 | a table built from terminated answers has only terminated answers |
| QandA.FillPrefixFailure | easybuild/tools/filetools.py:361-363 | once a prefix of the items fails, the whole build fails the same way |
| QandA.ProcessQA | easybuild/tools/filetools.py:347-357 | the entry succeeds exactly when the question's pattern matches the question itself; it then holds that pattern and the answer with a newline added unless it ends in one; otherwise the error names the question and pattern |
| QandA.CustomTable | easybuild/tools/filetools.py:359-364 | the `newQA` table built from the caller's questions, whose failure and contents `CustomTableSpec` states |
| QandA.CustomTableSpec | easybuild/tools/filetools.py:359-364 | the custom table fails exactly when some question does not match its own pattern, with the first such question's error; on success every answer is terminated, the table holds only question patterns, and each question's pattern maps to the terminated answer of the last question with that pattern |
| QandA.BuildCustomTable | easybuild/tools/filetools.py:359-364 | the loop builds the custom table |
| QandA.StandardTable | easybuild/tools/filetools.py:366-372 | the `newStdQA` table, whose contents `StandardTableSpec` states |
| QandA.StandardTableSpec | easybuild/tools/filetools.py:366-372 | every standard answer is terminated, the table holds only anchored standard questions, and each anchored question maps to the terminated answer of the last item with that question |
| QandA.BuildStandardTable | easybuild/tools/filetools.py:366-372 | the loop builds the standard table |
| QandA.NoProgressPatterns | easybuild/tools/filetools.py:374-377 | one pattern per no-progress entry, in order, each exactly the entry followed by the anchor |
| QandA.FirstMatch | easybuild/tools/filetools.py:422-427 | no answer exactly when no pattern matches; otherwise the answer of the first matching entry |
| QandA.Step | easybuild/tools/filetools.py:409-451 | the read is appended to the buffer; an answer is sent exactly when the read returned text and a custom or standard pattern matches, custom first; an answer resets the counter; otherwise a grown buffer records its length with the counter unchanged, a no-progress match leaves everything unchanged, and anything else adds one; the kill happens exactly when the counter exceeds 20 |
| QandA.SearchTable | easybuild/tools/filetools.py:422-434 | the loop finds the first matching entry's answer, and nothing when the read was empty |
| QandA.SearchNoProgress | easybuild/tools/filetools.py:439-443 | the loop reports whether any no-progress pattern matches |
| QandA.PollOnce | easybuild/tools/filetools.py:412-451 | one loop iteration computes `Step` |
| QandA.HitCountBounded | easybuild/tools/filetools.py:445-451 | a run that is not killed keeps the counter at most 20, and a killed run stops with the counter at exactly 21 |
| QandA.SentAnswersTerminated | easybuild/tools/filetools.py:351-432 | every answer sent to the process ends in a newline |
| QandA.SilentCommandKilled | easybuild/tools/filetools.py:436-451 | once the buffer stops growing, silent polls with no no-progress match raise the counter by one each, and the run is killed exactly when the counter would pass 20 |
| QandA.InitialSilenceKilled | easybuild/tools/filetools.py:405-451 | a command that prints nothing is killed exactly when it stays alive for 22 polls |
| QandA.RunPolls | easybuild/tools/filetools.py:409-465 | the polling loop over the successive reads, stopping at a kill; its counter bound is `HitCountBounded` and its answers are terminated by `SentAnswersTerminated` |
| QandA.PollWhileRunning | easybuild/tools/filetools.py:409-465 | the polling loop computes the run, stopping at a kill |
| QandA.RunQA | easybuild/tools/filetools.py:313-498 | a question that does not match its own pattern fails before the run; a run the hang rule kills fails with the last 500 characters of the output, whatever the exit code; otherwise, for the non-negative code the loop leaves on, the verdict and counter are those `Finish` states on the buffer plus the final read |
| FetchParams.SkipSpace | easybuild/framework/easyconfig/parser.py:67 | the first non-whitespace position, with only whitespace skipped |
| FetchParams.LineEnd | easybuild/framework/easyconfig/parser.py:67 | the first newline at or after the position, or the end |
| FetchParams.CapturedAfter | easybuild/framework/easyconfig/parser.py:67 | a captured value is non-empty, starts and ends with non-whitespace, and holds no newline |
| FetchParams.StripQuotes | easybuild/framework/easyconfig/parser.py:70 | the result is what is left once the leading and trailing runs of quotes are removed: a slice after nothing but quotes and before nothing but quotes, neither starting nor ending with a quote |
| FetchParams.MatchAt | easybuild/framework/easyconfig/parser.py:67-68 | the pattern for a name matches with the name at a position: the name occurs there, only whitespace precedes it on its line, and a value follows |
| FetchParams.ValueAt | easybuild/framework/easyconfig/parser.py:67-70 | the value read at a match is the captured text with its quote runs stripped, neither starting nor ending with a quote |
| FetchParams.FirstFrom | easybuild/framework/easyconfig/parser.py:68 | the least position with a match, and none exactly when no position matches |
| FetchParams.FindParamSpec | easybuild/framework/easyconfig/parser.py:67-72 | nothing is found exactly when no position matches; otherwise the value is that of the leftmost match |
| FetchParams.FindParam | easybuild/framework/easyconfig/parser.py:70 | a found value has no leading or trailing quote |
| FetchParams.FetchParameters | easybuild/framework/easyconfig/parser.py:59-74 | one entry per requested name, in order, each the search result for that name |
| FetchParams.SearchEach | easybuild/framework/easyconfig/parser.py:65-73 | the loop makes one search per name, in order, and keeps every result |
| FetchParams.DefinitionReadBack | easybuild/framework/easyconfig/parser.py:67-70 | a first line `name = value` gives back `value`, whatever follows |
| FetchParams.AbsentName | easybuild/framework/easyconfig/parser.py:71-72 | a name that does not occur in the text is not found |
| EasyConfig.KeyOf | easybuild/framework/easyconfig/parser.py:166 | the key of a line: the text before its first `=`, stripped |
| EasyConfig.InlineText | easybuild/framework/easyconfig/parser.py:170-171 | the inline comment text of a line: the text after its last `#`, stripped |
| EasyConfig.BlockEnd | easybuild/framework/easyconfig/parser.py:163-165 | the first line from the position on that is neither a comment nor empty, or none when the block runs to the end |
| EasyConfig.InitialContent | easybuild/framework/easyconfig/parser.py:97-123 | the given raw content comes first, then the file's content when the file exists; a missing file is an error, and so is neither being given |
| EasyConfig.EasyConfigParser.constructor | easybuild/framework/easyconfig/parser.py:84-87 | the object as `__init__` has it before the scan: the given content and dictionary, and no comments yet |
| EasyConfig.EasyConfigParser.Open | easybuild/framework/easyconfig/parser.py:82-106 | construction fails with the content error or the comment scan's error; otherwise it gives a new parser holding the content, the dictionary and the content's comments |
| EasyConfig.EasyConfigParser.ExtractComments | easybuild/framework/easyconfig/parser.py:140-176 | the loop computes the scan of the content's lines: the comments on success, the scan's error otherwise |
| EasyConfig.EasyConfigParser.GetComments | easybuild/framework/easyconfig/parser.py:232-234 | the result is the parser's comments: the header is the leading run of comment lines, and every other entry is backed by the lines |
| EasyConfig.ReadBlock | easybuild/framework/easyconfig/parser.py:161-165 | the inner loop gathers the block lines up to the first other line, and reaches the end exactly when the block does |
| EasyConfig.HeaderEnd | easybuild/framework/easyconfig/parser.py:156-157 | the end of the leading run of comment lines |
| EasyConfig.HeaderFrozen | easybuild/framework/easyconfig/parser.py:159 | once header mode is left, the header never changes |
| EasyConfig.HeaderRun | easybuild/framework/easyconfig/parser.py:156-159 | in header mode, the header grows by exactly the leading comment lines |
| EasyConfig.HeaderIsLeadingComments | easybuild/framework/easyconfig/parser.py:152-159 | the header is exactly the maximal leading run of lines starting with `#` |
| EasyConfig.AboveAdd | easybuild/framework/easyconfig/parser.py:166-167 | filing a block under the key of the line below it keeps every entry backed |
| EasyConfig.InlineAdd | easybuild/framework/easyconfig/parser.py:174-175 | filing an inline comment under its line's key keeps every entry backed |
| EasyConfig.Scanned | easybuild/framework/easyconfig/parser.py:151-176 | the comment scan from a line on, past-end read included; `ScannedSound`, `HeaderIsLeadingComments` and the key-line lemmas state what it records |
| EasyConfig.CommentsOf | easybuild/framework/easyconfig/parser.py:140-176 | the scan of the content's lines from the start in header mode, which `ExtractComments` computes and `CommentsSound` describes |
| EasyConfig.ScannedSound | easybuild/framework/easyconfig/parser.py:155-176 | from any point, the scan files only entries backed by the lines |
| EasyConfig.CommentsSound | easybuild/framework/easyconfig/parser.py:160-175 | each `above` entry is a block that starts with a `#` line, holds only comment and empty lines, and sits right above a line whose text before the first `=`, stripped, is the key; each `inline` entry is `"# "` plus the stripped text after the last `#` of its key's line, which does not start with `#`, and the key's value does not contain that text with quotes removed |
| EasyConfig.LinesOfJoin | easybuild/framework/easyconfig/parser.py:151 | splitting newline-joined lines gives them back |
| EasyConfig.TrailingCommentFails | easybuild/framework/easyconfig/parser.py:163-166 | a text ending in a non-header comment and a newline makes the scan read past the last line |
| EasyConfig.KeyLineSkippedWith | easybuild/framework/easyconfig/parser.py:163-176 | after a block, its key line is skipped whatever it holds |
| EasyConfig.KeyLineInlineSkipped | easybuild/framework/easyconfig/parser.py:166-176 | the key line after a comment block is consumed with it, so its own inline comment is neither recorded nor checked |
| EasyConfig.InlineCommentWith | easybuild/framework/easyconfig/parser.py:169-175 | a single definition line with a `#` is filed as an inline comment under any reading of keys and comments |
| EasyConfig.InlineComment | easybuild/framework/easyconfig/parser.py:169-175 | for one definition line with a `#`: a key missing from the dictionary is an error; otherwise the comment is recorded exactly when the key's value does not contain it |

## Left out

- Process control is not modelled: spawning, reading, `time.sleep` polling, writing answers, and killing the process group. A run is given by what it produced: the chunks read while it ran, a final read and an exit code. In `run_cmd_qa`, a read that raised is a `None` chunk.
- The regular-expression engine is not modelled. Searches are an uninterpreted `Matcher`, and only the construction of the pattern strings is modelled. The one exception is the `fetch_parameters_from_easyconfig` pattern, which is written out character by character.
- Log files, `log.debug`/`log.info` output and the messages of `log.error` are not modelled. Only the fact that `log.error` raises is kept, as a `Failure`.
- The `PROFILEREAD` command prefix for SuSE is not modelled; it depends on the environment and on `/etc/profile.d`.
- `modifyEnv`, `recursiveChmod` and `unpack` are not modelled. They change the process environment or do directory plumbing around the archive inspector and the directory resolver.
- The copy in `patch` copy mode is not modelled. The model reports `Copied` without changing the file system.
- Python 2 dictionary order for the `qa` and `std_qa` tables is not modelled. The model uses insertion order, and re-assigning a pattern replaces its entry in place.
- The easyconfig formatter is not modelled: format-version detection, formatter classes, `validate`, `get_config_dict` and `set_specifications`. Its dictionary is an input (`ConfigDict`), and a `KeyError` from it is a `Failure`.
- `_read`, `write` and the `get_fn`/`set_fn` plumbing of `_check_filename` are not modelled. A file is a map from names to contents.
- FetchParams.FetchParameters: the name is matched literally. A parameter name holding regular-expression metacharacters would be read as a pattern by the source.
- EasyConfig.CommentsSound: states only that every recorded entry is backed by the lines. It does not state that every block and inline comment in the text is recorded, because later entries for the same key overwrite earlier ones.
- RunCmd.Run, QandA.RunQA: require the exit code the polling loop left on to be non-negative. As written, `run_cmd`'s loop never ends on the negative code of a child killed by a signal (see Findings), so such a call has no result to state. `QandA.RunQA` also accepts a negative code when its tables fail or the hang rule kills the run, the two ways `run_cmd_qa` ends for such a child. A signalled child whose output keeps matching a no-progress pattern is never killed, and is not covered.
- RunCmd.ParseLogForError: each hit is returned as its line alone. The source also returns the match groups (`r.groups()`), which an uninterpreted boolean matcher cannot give.
- BaseDirs.FindBaseDir: symbolic links are not modelled. In the source, a sole entry that is a link to `.` or to an ancestor passes `os.path.isdir` and makes `findBaseDir` descend forever. The model's file system is keyed by path strings with no links, so each descent reaches a strictly longer path and the loop always ends.
- Paths.AbsPath, Patching.HitsAt, Patching.Patch: paths are joined and looked up as written, without the folding of `.`, `..` and repeated or trailing `/` that `os.path.abspath` and the operating system's lookup do. So a `+++ ./foo.c` line with `foo.c` in the destination resolves in the source at depth 0, and in the model only at depth 1. A destination `src/` is entered as `<cwd>/src/` rather than `<cwd>/src`.
- EscapeSpecial: its own contract states only that escaping never shortens the text; `QandA.EscapeSpecialSpec` states what it does to every character.
- EscapeRoundTrip: states only that escaping loses no text; which characters get a backslash is `QandA.EscapeSpecialSpec`.
- EasyConfig.ConfigDict: a key's value is only its "contains" test. A value that is neither a string nor a container, such as an integer, makes `in` raise `TypeError` in the source, and the model cannot express it.
- `Patching.Patch` runs the command through an `execute` function of the command text alone. That the command runs in the destination directory is stated only through the returned working directory.
- A failing `os.chdir` in `findBaseDir` is only logged by `log.exception` and is not modelled; the directories it enters exist in the file system.

## Findings

| source | as written | input that shows it | evidently intended | confidence | as-written member | corrected member |
|---|---|---|---|---|---|---|
| easybuild/tools/filetools.py:75-77 | when the only entry left is a file, `findBaseDir` breaks out with `newDir` already set to that file's path | a directory `/src` whose only entry is the file `foo` gives `/src/foo` | return the directory holding the entry, a directory to build in | not executed; high | BaseDirs.SoleFileReturned | BaseDirs.BaseDirIsDirectory |
| easybuild/tools/filetools.py:169 | `if not level` treats an explicit `level=0` like a missing level and guesses | `level=0`, where the first `+++ x/y/z` resolves only as `y/z`, gives `-p1` | use any given level, 0 included, as lines 211 and 217-218 do for `p` | not executed; medium | Patching.ExplicitZeroIgnored | Patching.Level |
| easybuild/tools/filetools.py:272 | `while ec < 0` also keeps polling on the negative code `poll()` reports for a child killed by a signal, so the loop never ends | a command killed by `SIGSEGV`, whose `poll()` returns -11 at every poll | poll while `poll()` returns `None` and report the signal as a non-zero exit | not executed; medium | RunCmd.SignalledChildKeepsPolling | RunCmd.ExitedChildLeaves |
