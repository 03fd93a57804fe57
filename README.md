# stream-macro, modelled in Dafny

stream-macro turns stream tips into keyboard and mouse input for the game that
is running. At start-up it reads every `*.config` file in its working directory
into a table `gameMap` from game executable name to a map from tip amount to
action string (`configSetup`). When the tip file is written, it reads the file
as `user;amount`, parses the amount as a signed 32-bit decimal, finds the first
running process whose name is a key of the table (`whichGameRunning`), looks up
that game's action string for the amount, and performs it (`doAction`). An
action string is a `|`-separated list of tokens. `k<c>` taps key `c`. `ml` and
`mr` click the left and right mouse button.

The model has five modules:

- `Wrappers`: `Option` and `Result`.
- `GoStrings`: the Go library behaviour the program relies on. This is
  `strings.Split` with a one-character separator, `strings.TrimSpace`,
  `strings.HasSuffix` and `strconv.ParseInt(s, 10, 32)`. There is also a
  decimal formatter used to state round trips.
- `Config`: how one config file becomes a game name and a key map (`ParseLine`,
  `KeyMapOf`, `ParseConfig`, and the method `ReadConfig` that runs the per-line
  loop over a mutable `keyMap`). It also covers how a directory listing
  becomes the table (`LoadEntry`, `ApplyFiles`, `LoadFiles`).
- `Actions`: how one action string becomes a trace of input steps
  (`TokenStep`, `Interpret`, and the method `DoAction` that runs the token
  loop).
- `StreamMacro`: the class `Macro`, whose field `gameMap` is the global table.
  Its methods are `ConfigSetup`, `WhichGameRunning` and `OnWrite`, the handler
  for one write event. The functions `RunningGame` and `HandleWrite` specify
  them.

Where the Go code panics on an index out of range, the model returns an
explicit outcome instead of requiring the input away:

- a config line that parses as an integer but has no `:` (`tmp[1]`) gives
  `LineEffect.Panics`, and then `LoadResult.Crashed` and `SetupOutcome.SetupCrashed`;
- a token whose raw length is at least 2 but whose trimmed form is too short
  (`a[0]`, `a[1]`) gives `TokenOutcome.Crash`, and then `Run.crashed`;
- a tip payload without `;` (`str[1]`) gives `Handled.PayloadCrashed`.

The model follows the code in these places where a reading of the intent might
differ:

- The key tapped by a `k` token is the byte right after `k`, so `k a` taps a
  space. `m l` clicks nothing, because its second byte is a space.
- The action stored for a config line is the text between its first and second
  `:`, not everything after the first `:`.
- The comment at `streammacro.go:123` says the tip file is `user: amount`. The
  code splits on `;`, and the model does the same.
- When no running process is a key, the resolver returns `""`. If the table has
  a game named `""` (a config file whose first line is empty), the tip is
  dispatched to that game.

## Model

| member | source | states |
|---|---|---|
| GoStrings.IndexOf | streammacro.go:45 | the result is the index of the first occurrence of the separator, or the length when there is none |
| GoStrings.Split | streammacro.go:37 | `strings.Split` with a one-character separator gives at least one field, no field contains the separator, the first field is the text before the first separator, and the input is a single field exactly when it has no separator |
| GoStrings.SplitJoinsBack | streammacro.go:60 | joining the fields of a split with the separator gives back the input |
| GoStrings.SplitJoin | streammacro.go:60 | splitting the join of separator-free fields gives back those fields |
| GoStrings.SplitAfterField | streammacro.go:45 | a separator-free prefix followed by the separator is the first field, and the rest splits on its own |
| GoStrings.SplitPair | streammacro.go:125 | two separator-free fields joined by the separator split back into exactly those two fields |
| GoStrings.SplitNested | streammacro.go:125 | two separator-free fields, the separator and any text, grouped after the first separator, split into those two fields followed by the fields of that text |
| GoStrings.SplitTriple | streammacro.go:125 | two separator-free fields followed by the separator and any text split into those two fields followed by the fields of that text |
| GoStrings.JoinAvoids | streammacro.go:60 | a character other than the separator that is in no field is not in the joined string |
| GoStrings.LeadingSpaces | streammacro.go:66 | counts the ASCII white-space characters at the start of the string |
| GoStrings.TrailingSpaces | streammacro.go:66 | counts the ASCII white-space characters at the end of the string |
| GoStrings.TrimSpace | streammacro.go:66 | `strings.TrimSpace` returns the contiguous middle of the input, with only white space cut on either side and no white space left at either end; it is empty exactly when the input is all white space and is the input itself when neither end is white space |
| GoStrings.TrimWindow | streammacro.go:66 | the window that `strings.TrimSpace` keeps starts at the first non-space character and ends before the trailing white space; everything after it is white space and neither of its ends is |
| GoStrings.HasSuffix | streammacro.go:28 | definition of `strings.HasSuffix`: the last bytes of the name are the suffix; `ReadableEntriesMembers` and `LoadFilesSnocIgnored` state what it selects |
| GoStrings.ScanDigits | streammacro.go:46 | the digit loop of `strconv.ParseUint` succeeds exactly when every character is a digit and the value fits in 32 bits, gives that value, and reports a range error when an all-digit string is too large |
| GoStrings.ParseUint32 | streammacro.go:46 | the unsigned core of `strconv.ParseInt`: succeeds exactly on a non-empty all-digit text whose value is at most 2^32 - 1, returns that value, and is `ErrRange` for a longer all-digit text |
| GoStrings.ParseInt32 | streammacro.go:46 | `strconv.ParseInt(s, 10, 32)` succeeds exactly when `s` is an optionally signed run of decimal digits whose value lies in the signed 32-bit range and returns that value; an in-syntax value out of range is `ErrRange` and the empty string is `ErrSyntax` |
| GoStrings.FormatDecimal | streammacro.go:127 | the inverse of the amount parse at this line: the decimal text of an integer is an optionally signed digit string whose value is that integer |
| GoStrings.ParseFormatRoundTrip | streammacro.go:127 | the parse at this line inverts `FormatDecimal`: parsing the decimal text of any signed 32-bit integer gives back that integer |
| Config.ParseLine | streammacro.go:45-50 | a line that stores an entry stores an amount in the signed 32-bit range and an action with no `:` |
| Config.ParseLineCases | streammacro.go:45-50 | a line is skipped exactly when the text before its first `:` does not parse; it panics exactly when it has no `:` and the whole line parses; otherwise it stores the parsed amount and the second `:`-field |
| Config.ParseLineOfFields | streammacro.go:45-49 | a line whose first two `:`-fields are an amount that parses and an action stores exactly that amount and action |
| Config.LineRoundTrip | streammacro.go:45-49 | the line `<n>:<a>` stores `a` under `n`, and so does `<n>:<a>:<b>`: text after the second `:` is dropped |
| Config.ApplyLines | streammacro.go:38-52 | definition of the per-line loop as a fold over line effects, stopping at the first panic; `ApplyLinesFails`, `ApplyLinesLastWins`, `ApplyLinesUnsetAbsent` and `ApplyLinesEntries` characterise it |
| Config.ApplyLinesEntries | streammacro.go:49 | every entry of a built key map was stored by some line with that amount and action |
| Config.KeyMapOf | streammacro.go:38-52 | definition of the key map of a file body's mapping lines; `KeyMapOfFails`, `KeyMapLastLineWins`, `KeyMapUnsetAbsent` and `KeyMapOfBounds` characterise it |
| Config.KeyMapOfBounds | streammacro.go:46-49 | every amount in a loaded key map is a signed 32-bit integer and every action has no `:` |
| Config.ApplyLinesStaysFailed | streammacro.go:49 | once a line has panicked, later lines do not change the outcome |
| Config.ApplyLinesFails | streammacro.go:38-52 | building a key map succeeds exactly when no line panics, and a failure reports the first panicking line |
| Config.KeyMapOfFails | streammacro.go:38-52 | the same, stated over the raw lines of a file body |
| Config.ApplyLinesLastWins | streammacro.go:49 | the key map holds, for an amount, the action of the last line that stored that amount |
| Config.ApplyLinesUnsetAbsent | streammacro.go:49 | an amount that no line stores is not in the key map |
| Config.KeyMapLastLineWins | streammacro.go:45-49 | a later line with the same amount overwrites an earlier one; the last such line's action is the one kept |
| Config.KeyMapUnsetAbsent | streammacro.go:45-49 | an amount set by no line of the file is absent from its key map |
| Config.SkippedLineChangesNothing | streammacro.go:46-47 | appending a line whose amount does not parse, such as an empty trailing line, leaves the key map unchanged |
| Config.AppendedLineSets | streammacro.go:45-49 | appending `<n>:<a>` to a file that loads sets `n` to `a` and keeps every other entry |
| Config.ParseConfig | streammacro.go:34-53 | definition of loading one file's contents; `ParseConfigMeaning` and `ConfigRoundTrip` characterise it |
| Config.ParseConfigMeaning | streammacro.go:34-52 | loading a file succeeds exactly when no line after the first panics, and reports the first one that does; the game name is the whole first line, untrimmed, and the key map is that of the later lines |
| Config.ConfigOfLines | streammacro.go:34-52 | a file named by its first line loads exactly when none of its mapping lines panics, reports the first panicking line otherwise, and keeps the key map of its mapping lines |
| Config.SingleLineKeyMap | streammacro.go:45-49 | a body of one line `<n>:<a>` gives the key map `{n: a}` |
| Config.ConfigRoundTrip | streammacro.go:34-52 | the file `<name>\n<n>:<a>` loads as the game `name` with the key map `{n: a}` |
| Config.ApplyLinesStep | streammacro.go:38-50 | one more line either leaves the key map as it is (skipped) or stores its entry |
| Config.ApplyLinesFailedPrefix | streammacro.go:38-50 | if a prefix of the lines already panics, the whole file fails the same way |
| Config.ApplyLinesPanicStep | streammacro.go:49 | a panicking line after a run of good lines fails the file with that line |
| Config.ReadLineStep | streammacro.go:45-50 | one pass of the per-line loop: a line whose first field does not parse leaves the key map as it is, one with a parsed amount but no second field ends the whole load with that line as the panic, and otherwise the amount is mapped to the second field |
| Config.ReadConfig | streammacro.go:34-52 | the per-line loop over a mutable key map yields exactly what `ParseConfig` specifies for the file contents |
| Config.LoadEntry | streammacro.go:28-54 | definition of one listing entry's effect: ignored without the `.config` suffix or when the read fails, otherwise loaded or aborted as `ParseConfig` says; `ReadableEntriesMembers` and `LoadFilesSnocIgnored` characterise it |
| Config.ApplyFiles | streammacro.go:27-55 | definition of the file loop as a fold over file effects, stopping at the first panic; `ApplyFilesCompletes`, `ApplyFilesLastWins` and `ApplyFilesUndeclared` characterise it |
| Config.LoadFiles | streammacro.go:27-55 | definition of loading a listing into the table; `LoadCompletes`, `OnlyReadableConfigFilesCount`, `LastFileWins` and `UndeclaredGameUnchanged` characterise it |
| Config.EntryLoadsSnoc | streammacro.go:27 | the effects of a listing with one more entry are those of the listing followed by that entry's effect |
| Config.ApplyFilesStaysCrashed | streammacro.go:27-55 | once a file has panicked, later files do not change the outcome |
| Config.ApplyFilesStep | streammacro.go:27-55 | one more file either leaves the table as it is (ignored or unreadable) or sets its game to that file's key map |
| Config.LoadFileStep | streammacro.go:28-54 | one pass of the per-file loop: an ignored or unreadable entry leaves the table as it is, a file whose config panics ends the whole load with the table so far, and a file that loads sets its game to its key map |
| Config.ApplyFilesAbortStep | streammacro.go:27-55 | a panicking file after a run of good files stops the load with the table built so far |
| Config.ApplyFilesCompletes | streammacro.go:27-55 | the load completes exactly when no file panics |
| Config.LoadCompletes | streammacro.go:27-56 | the load of a listing completes exactly when no readable `.config` file has a panicking line |
| Config.ReadableEntriesMembers | streammacro.go:28-32 | the readable `.config` entries are exactly the listing's entries with that suffix whose read succeeds |
| Config.LoadFilesSnocIgnored | streammacro.go:28-32 | appending an entry that is not a `.config` file, or whose read fails, does not change the load |
| Config.LoadFilesSnocSame | streammacro.go:27 | two listings that load alike still load alike after the same entry is appended to both |
| Config.OnlyReadableConfigFilesCount | streammacro.go:28-32 | the load of a listing equals the load of its readable `.config` entries alone |
| Config.ApplyFilesLastWins | streammacro.go:53 | a game's table entry is the key map of the last file that declares it |
| Config.ApplyFilesUndeclared | streammacro.go:53 | a game that no file declares keeps its entry, or its absence, from before the load |
| Config.LastFileWins | streammacro.go:37-53 | a later file with the same first line replaces the earlier key map wholesale |
| Config.UndeclaredGameUnchanged | streammacro.go:53 | a game no readable `.config` file names is left as it was |
| Actions.TokenStep | streammacro.go:62-85 | definition of the loop body for one token; `TokenStepMeaning` characterises it in both directions |
| Actions.TokenStepMeaning | streammacro.go:62-85 | a token panics exactly when its raw length is at least 2 and its trimmed form is empty or a lone `k` or `m`; a raw length below 2 sends nothing; a trimmed token `k` then `c` taps `c`, `m` then `l` or `r` clicks left or right, `m` then anything else and any other first byte send nothing |
| Actions.Perform | streammacro.go:61-86 | definition of the token loop as a fold over token outcomes, ending at the first panic; `PerformCrashes`, `StopsAtFirstCrash`, `PerformSendsEmitted` and `PerformEmits` characterise it |
| Actions.Interpret | streammacro.go:60-86 | definition of performing a list of tokens; `InterpretAppend`, `TrimmedTokensNeverCrash` and `RenderRoundTrip` characterise it |
| Actions.PerformStaysCrashed | streammacro.go:66-67 | once a token has panicked, later tokens send nothing |
| Actions.PerformAppend | streammacro.go:61-86 | the steps of two runs of tokens are the steps of the first followed by those of the second, unless the first crashed |
| Actions.PerformCrashes | streammacro.go:66-73 | the run crashes exactly when some token crashes |
| Actions.StopsAtFirstCrash | streammacro.go:61-86 | the steps sent before a crash are exactly those of the tokens before the first crashing token |
| Actions.PerformSendsEmitted | streammacro.go:61-86 | the run sends at most one step per token, and every step it sends was emitted by some token |
| Actions.PerformEmits | streammacro.go:61-86 | tokens that each emit a step send those steps in token order |
| Actions.InterpretAppend | streammacro.go:60-61 | interpreting two lists of tokens in sequence is interpreting the first and then the second |
| Actions.TrimmedTokensNeverCrash | streammacro.go:62-67 | a list of tokens that have no white space at either end never crashes |
| Actions.StepText | streammacro.go:68-77 | the inverse of the dispatch at these lines: a step's two-character token, which `StepTextStep` proves performs that step |
| Actions.RenderAvoids | streammacro.go:45 | a rendered action string of typable steps other than the `:` key contains no `:` and no newline, so it fits in a config line |
| Actions.StepTextStep | streammacro.go:66-77 | the token for a typable step performs that step |
| Actions.RenderRoundTrip | streammacro.go:59-88 | interpreting the rendered action string of typable steps sends exactly those steps and does not crash |
| Actions.KeyTapSendsSecondByte | streammacro.go:68-70 | `k <x>` taps a space, not `x` |
| Actions.MouseNeedsButtonSecond | streammacro.go:71-81 | `m <y>` clicks nothing |
| Actions.InterpretSingle | streammacro.go:61-86 | a single token that does not crash sends its own step, or nothing |
| Actions.InterpretSpacedTokens | streammacro.go:61-86 | the tokens `k <x>` and `m <y>` together tap a space and click nothing |
| Actions.SpacedActions | streammacro.go:59-88 | the action string made of the tokens `k <x>` and `m <y>`, joined by the token separator, taps a space and clicks nothing |
| Actions.PerformStep | streammacro.go:61-86 | one more token either sends nothing or appends its step |
| Actions.PerformCrashedPrefix | streammacro.go:61-86 | if a prefix of the tokens already crashed, the whole run ends the same way |
| Actions.PerformCrashStep | streammacro.go:66-73 | a crashing token after a run of good tokens ends the run with the steps sent so far |
| Actions.DoAction | streammacro.go:59-88 | the token loop over an action string sends exactly the steps, and ends in the crash, that `Interpret` specifies for the tokens of the string |
| StreamMacro.RunningGame | streammacro.go:90-98 | definition of the first-match search over the process names; `RunningGameIsFirstKey` characterises it |
| StreamMacro.RunningGameIsFirstKey | streammacro.go:90-98 | the resolved game is the first process name, in list order, that is a key of the table, or `""` when none is |
| StreamMacro.FirstKey | streammacro.go:92-96 | the index of the first process name that is a table key, or the length of the list |
| StreamMacro.FirstRunningGame | streammacro.go:92-96 | a configured game preceded only by unconfigured processes is the one resolved |
| StreamMacro.HandleWrite | streammacro.go:120-136 | a write event only logs exactly when the tip file cannot be read; it crashes exactly when the payload was read and has no `;`; otherwise the decision depends only on the second `;`-field |
| StreamMacro.HandleTip | streammacro.go:127-135 | an amount field is rejected exactly when its trimmed text does not parse as a signed 32-bit decimal; with a valid amount, nothing is dispatched exactly when the resolved game is not a table key; a dispatch goes to the resolved game with the parsed amount and performs the `|`-separated steps that game maps that amount to, or nothing when the amount is unmapped |
| StreamMacro.AmountField | streammacro.go:125-127 | text after a second `;` does not change the decision |
| StreamMacro.NoGameExactly | streammacro.go:130-135 | with a valid amount, nothing is dispatched exactly when `""` is not a table key and no process name is one |
| StreamMacro.UnmappedAmountSendsNothing | streammacro.go:131-132 | a dispatch for an amount the game does not map looks up `""`, which sends no step |
| StreamMacro.FormattedIsTrimmed | streammacro.go:127 | the trim at this line leaves the decimal text of an amount (the inverse of the parse) unchanged |
| StreamMacro.TipPayload | streammacro.go:125-127 | the payload `<user>;<n>` splits into the user and the amount text, which parses to `n` |
| StreamMacro.TipPerformsSteps | streammacro.go:120-136 | a tip `<user>;<n>` while a configured game runs after only unconfigured processes performs exactly the steps rendered in that game's entry for `n` |
| StreamMacro.LoadOneFile | streammacro.go:27-56 | a listing of one loadable `.config` file gives the table holding just that file's game and key map |
| StreamMacro.ConfiguredTipPerformsSteps | streammacro.go:120-136 | after `configSetup` loads one config file `<game>\n<n>:<actions>`, a tip `<user>;<n>` while that game runs performs exactly the rendered steps |
| StreamMacro.Macro.constructor | streammacro.go:14 | the table starts empty |
| StreamMacro.Macro.ConfigSetup | streammacro.go:18-57 | a failed directory listing returns an error (which makes `main` stop) and leaves the table alone; otherwise the table becomes what `LoadFiles` specifies for the listing, and the setup reports either success or the config line it panicked on |
| StreamMacro.Macro.WhichGameRunning | streammacro.go:90-98 | the linear search with early return yields the game `RunningGame` specifies for the current table and process list |
| StreamMacro.Macro.OnWrite | streammacro.go:119-136 | handling one write event decides exactly what `HandleWrite` specifies for the current table, the payload and the process list |

## Left out

- Directory listing and file reads (`ioutil.ReadDir`, `ioutil.ReadFile`) are inputs. A listing is an `Option<seq<DirEntry>>`, and each entry's contents or tip payload is an `Option<string>`, where `None` is a read error. `ioutil.ReadDir` returns the entries sorted by file name, so "the last file wins" means the alphabetically last `.config` file that names a game; the model states every property for listings in any order, which covers that one.
- `robotgo.KeyTap` and `robotgo.MouseClick` are recorded as steps of a `Run` trace. No input is synthesised.
- `goprocess.FindAll` is an input sequence of executable names.
- The fsnotify watcher, the goroutine, the `select` loop, the `done` channel, the watcher error paths and the hard-coded watch path (`streammacro.go:105-151`) are left out. The model handles one write event at a time.
- `fmt.Printf` diagnostics are not modelled.
- The unused global `currentGame` is not modelled.
- GoStrings.TrimSpace: only ASCII white space is trimmed, not the full Unicode set, and each character stands for one byte.
- GoStrings.ParseInt32: the error values carry only the kind (`ErrSyntax` or `ErrRange`), not the function name or the input text. Base prefixes and `_` separators are not modelled, because base 10 rejects them.
- Actions.RenderRoundTrip: stated only for steps whose key is neither a space nor `|`. A space would be trimmed away and a `|` would split the token.
- A Go panic ends the whole program. The model stops at the panicking line or token, reports it as an outcome, and keeps the state reached so far.
