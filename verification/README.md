# Decomplicator core, modelled in Dafny

Decomplicator is a Windows desktop wizard. It sets up decompilation projects: it downloads and
unpacks dependencies, clones a git repository, copies a game ROM, and runs build actions in a
prepared environment. Around its Qt pages and worker threads sit a handful of deterministic
decisions. This project models those decisions as pure Dafny functions over immutable data and
proves what they promise.

- **Outcomes** (`outcomes.dfy`): `Option`, `Result`, the outcome of a task's `run_impl`, and
  progress values.
  - An outcome is `Success`, `Failure(message)` for a TaskFailureException, `Cancelled` for a
    TaskCancelledException, or `Raised(error)` for any other exception escaping the task.
  - Progress is `Indeterminate` or an exact rational fraction.
- **Text** (`text.dfy`): the parts of Python's `str` the application relies on.
  - `strip`, `rstrip("\r\n")`, `splitlines`, `split` and `join`.
  - `int()` on text, and `str()` of a natural number.
  - The newline translation of `Path.write_text` and `read_text` on Windows.
- **Ansi** (`ansi.dfy`): `AnsiTextFormatter`.
  - The text is HTML-escaped and split at CSI escape sequences into sections.
  - SGR parameters update six display attributes.
  - Every non-empty plain run becomes a `<span>` styled from the attributes.
- **Terminal** (`terminal.dfy`): the line buffer of `TerminalOutputWidget`: `add_line` with
  carriage-return overwrite, and `add_command_line`. The rows follow the Qt document's blocks:
  - an empty document is no rows, and `appendHtml("")` leaves it empty;
  - removing the block under the cursor does nothing to an empty last row.
- **Files** (`files.py` as **Files**, `files.dfy`): two line lists.
  - The recent-projects list: parse, move to front, remove duplicates, truncate to 8, write.
  - The per-environment list of finished dependencies.
  - Both work over an abstract file that is absent, readable with some text, or unreadable.
- **Project** (`project.dfy`):
  - The config format-version gate and the `Dependency` defaults.
  - `get_env`'s PATH construction.
  - `existing_project_requires_setup`.
  - `get_setup_task` as a plain plan tree.
  - The start page's routing for an existing project.
- **Download** (`download.dfy`): `DownloadAndValidateTask`.
  - The progress hook.
  - Every way a transfer can end.
  - Deletion on failure.
  - The integrity check over an abstract file store and an opaque digest function.
- **Extraction** (`extraction.dfy`): `FileExtractionTask`.
  - Dispatch: zip before tar, else failure.
  - The member loop, with cancellation, progress i/n and the error messages.
- **FileOps** (`fileops.dfy`): `FileOperationSequenceTask`.
  - Names are case-insensitive.
  - The operand count is checked.
  - Names that are not operations do nothing.
  - Progress is reported after each command, over an abstract filesystem.
- **GitClone** (`gitclone.dfy`): the clone-progress heuristic of `SetupGitRepoTask`.
  - Four phases, each a quarter of the bar.
  - The first `NN%` of a line, as `re.search(r"(\d+)%")` finds it, gives the position inside the phase.
- **Commands** (`commands.dfy`): how `SetupGitRepoTask`, `CreateProjectFileTask`, `FileCopyTask`,
  `ExecuteCommandTask`, `SetupDependenciesTaskSequence` and `MarkDependencyCompleteTask` choose their
  outcome. Cancellation is checked before a command's exit status.
- **Version** (`version.dfy`): version stamping.
  - `get_version_file_content`: the version text, and the version encoded as four 16-bit numbers.
  - The `version.txt` writer in `build.py`, and `AboutDialog.get_version_string` as its reader.

Paths are sequences of components, and `/` appends one. Progress fractions are exact `real`s.
I/O results, exit statuses, the moments at which cancellation is seen, and library behaviour are
all parameters:

- the network transfer
- the digest
- archive readers
- `shutil`
- `Path.resolve`
- `os.environ`

Some quirks of the code are modelled as written:

- The formatter splits at matches of the pattern `\x1b\[([\d;:]*)([a-zA-z])`. Its final-byte class `[a-zA-z]`
  also accepts `[ \ ] ^ _` and the backquote.
- Parameters 38 and 48 only `continue`, so the colour parameters that follow them are still applied.
  `ESC[38;5;4m` turns on underline.
- An empty SGR field makes `int('')` raise. The attributes set before it stay set.
- A file-operation command with no operands raises IndexError before its operand count is checked.
- A TOML `format_version = true` passes the version gate, because `bool` is a subclass of `int`.
- Lines that contain only whitespace pass the `if line` filter of the list readers, and are read as "".
- The version-number parts go through `& 0xffff`. For negative numbers this is the non-negative
  remainder modulo 65536. Parts after the fourth are never parsed.

## Model

| member | source | states |
|---|---|---|
| Text.Strip | src/files.py:65 | `strip()` removes exactly the leading and trailing whitespace: the result is a slice of the input whose ends are not whitespace, and everything cut off on either side is whitespace |
| Text.StripKeeps | src/files.py:65 | stripping adds no character: every character of the result occurs in the input |
| Text.TrimLineEnding | src/output_dialog.py:199 | `rstrip("\r\n")`: a prefix of the line, only CR/LF characters removed, and no CR or LF left at its end |
| Text.SplitLines | src/files.py:65 | `splitlines()` yields lines without line boundaries, and yields nothing exactly for empty text |
| Text.SplitOn | src/project.py:116 | `split(";")` yields one field more than there are separators, and no field contains the separator |
| Text.Join | src/project.py:118 | the joined text starts with the first element |
| Text.SplitOnConcat | src/project.py:116-118 | splitting at one occurrence of the separator splits the two sides independently |
| Text.SplitJoin | src/project.py:116-118 | splitting a joined list on a separator that no element contains gives the list back |
| Text.JoinSplit | src/project.py:116-118 | joining the fields of a split gives the original text back |
| Text.SplitLinesJoin | src/files.py:88 | reading back newline-joined lines without breaks gives the non-empty lines, in order |
| Text.NewlinesRoundTrip | src/files.py:90 | text without carriage returns survives Windows `write_text` followed by `read_text` unchanged |
| Text.WindowsNewlines | src/files.py:90 | Windows `write_text` grows the text by exactly one character per newline, each "\n" becoming "\r\n" |
| Text.UniversalNewlines | src/files.py:60 | text read with universal newlines contains no carriage return and is never longer than the file |
| Text.ParseIntNat | build.py:36 | `int(str(n)) == n` for every natural number |
| Text.ParseInt | build.py:36 | `int()` fails on empty text and on text without a digit; on a run of ASCII digits it gives their decimal value |
| Text.NatToStringValue | src/output_dialog.py:98-99 | the decimal spelling of n has digit value n |
| Ansi.OneSection | src/output_dialog.py:70 | text the pattern does not match anywhere is a single section with no arguments and no final byte |
| Ansi.EscFreeNoSequence | src/output_dialog.py:70 | the pattern cannot match text that holds no ESC |
| Ansi.EscapeKeepsNoSequence | src/output_dialog.py:69-70 | `html.escape` never creates a match: text the pattern does not match still does not match after escaping |
| Ansi.Sections | src/output_dialog.py:70 | the first section carries no sequence, every later one starts with parameter characters and one final byte, no plain run holds a match of the pattern, and the sections put back together are the text |
| Ansi.PlainText | src/output_dialog.py:69-111 | text the pattern does not match (for example "\x1b(B" or "\x1b[1") renders as one span in the current style, or "" when empty, and leaves the attributes as they were |
| Ansi.Format | src/output_dialog.py:61-111 | text the pattern does not match, in particular text without ESC, never raises and leaves the attributes as they were; empty text renders as "" |
| Ansi.FormatSections | src/output_dialog.py:71-109 | sections without an `m` sequence never raise and leave the attributes unchanged; sections without plain text produce no HTML |
| Ansi.HtmlEscape | src/output_dialog.py:69 | `html.escape` maps "" to "", introduces no ESC, and leaves text without `& < > " '` unchanged |
| Ansi.HtmlEscapeConcat | src/output_dialog.py:69 | escaping distributes over concatenation |
| Ansi.ResetSequences | src/output_dialog.py:73-84 | `ESC[m` and `ESC[0m` reset every attribute to its default and print nothing |
| Ansi.ZeroParams | src/output_dialog.py:83-84 | parameter 0 resets the attributes, whatever they were |
| Ansi.ParamMapping | src/output_dialog.py:24-44 | 30-37 and 90-97 set fg to the same index, 40-47 and 100-107 set bg, 39 and 49 restore the colour defaults, 0 resets, and 38, 48 and values of 108 or more change nothing |
| Ansi.ApplyParam | src/output_dialog.py:76-86 | parameter 0 resets every attribute, values of 108 or more change nothing, and any other value changes at most one attribute |
| Ansi.NonSgrSequenceIgnored | src/output_dialog.py:71-72 | a sequence whose final byte is not `m` changes no attribute and prints nothing |
| Ansi.BracketFinalBytes | src/output_dialog.py:70 | `]` and `\` count as final bytes, so such sequences are swallowed without effect |
| Ansi.SgrSequence | src/output_dialog.py:72-86 | an SGR sequence prints nothing, and its effect on the attributes is exactly that of its parameters |
| Ansi.ExtendedColourNotSkipped | src/output_dialog.py:85-86 | after 38 the loop continues: `ESC[38;5;4m` applies 5 (unmapped) and 4 (underline) |
| Ansi.EmptyFieldRaises | src/output_dialog.py:76-77 | `ESC[1;m` raises ValueError on the empty field, after bold has already been set |
| Ansi.BoldSequence | src/output_dialog.py:24-25 | `ESC[1m` sets weight 800 and prints nothing |
| Ansi.AttributesCarryOver | src/output_dialog.py:61-111 | attributes set by one `format` call style the text of the next call, for any following text without a sequence |
| Ansi.Readable | src/output_dialog.py:91-95 | with bg 0 the text colour is COLORS[fg], with fg 0 shown as COLORS[7], and never black; with bg set the text is black on COLORS[bg] |
| Ansi.TextColor | src/output_dialog.py:91-94 | the text colour is a palette colour, and it is black exactly when the background is not 0 |
| Ansi.StyleParts | src/output_dialog.py:89-107 | at most five declarations; the text colour comes first and, when bg is not 0, the background colour second |
| Ansi.BackgroundDeclared | src/output_dialog.py:91-95 | a background-color declaration appears iff bg is not 0 |
| Ansi.Span | src/output_dialog.py:109 | the fragment opens with `<span style="`, and the plain text comes right before the closing `</span>` |
| Ansi.WeightDeclared | src/output_dialog.py:97-98 | a font-weight declaration appears iff the weight is not 400 |
| Ansi.ItalicDeclared | src/output_dialog.py:99-100 | `font-style: italic` appears iff italic is on |
| Ansi.DecorationDeclared | src/output_dialog.py:102-107 | underline plus strikethrough gives the combined declaration; each alone gives its own, each iff |
| Ansi.FormatSectionsCons | src/output_dialog.py:71-109 | formatting a section followed by others is its span followed by the rest, formatted from the updated attributes |
| Terminal.AddLine | src/output_dialog.py:189-214 | keeps the buffer well-formed (an empty document has no rows); a formatter error changes neither rows nor flag; otherwise the replace flag becomes "line ends with CR" (a lone CR excepted); at most one row is added; an empty line adds an empty row only when no replacement is pending and the document is not empty; a non-empty line adds a row unless a non-empty row is pending, which it replaces; rows before the last never change |
| Terminal.LoneCarriageReturn | src/output_dialog.py:195-196 | a lone "\r" changes nothing, not even the replace flag |
| Terminal.OverwritesPendingRow | src/output_dialog.py:201-209 | a non-empty line after a CR-terminated one replaces the last row when that row is not empty |
| Terminal.NothingToReplace | src/output_dialog.py:201-209 | after a CR-terminated line that left an empty row, or none, a non-empty line is appended and nothing is removed |
| Terminal.SequenceOnlyRowStays | src/output_dialog.py:197-214 | a line of only a non-SGR sequence and "\r" leaves an empty row, and the next plain line is appended after it |
| Terminal.BlankLineOnEmptyDocument | src/output_dialog.py:208-209 | on an empty document a blank line adds nothing, so the next non-empty line is the first row |
| Terminal.AppendsRow | src/output_dialog.py:208-209 | without a pending replacement a non-empty line is appended |
| Terminal.EmptyLineKeepsRow | src/output_dialog.py:208-214 | an empty line after a CR-terminated one adds nothing and only updates the flag |
| Terminal.ProgressLinesShareRow | src/output_dialog.py:189-214 | a run of CR-terminated progress lines occupies one row, showing the last |
| Terminal.AddCommandLine | src/output_dialog.py:216-223 | clears the replace flag and appends exactly one row, keeping the rows before it |
| Terminal.PromptRowShown | src/output_dialog.py:221-223 | whatever the command, its formatted row is never empty, so it always adds a block |
| Terminal.CommandLineRendering | src/output_dialog.py:221-223 | the row is "$ " in yellow followed by the command in the default style, and the formatter ends in its defaults |
| Files.Entries | src/files.py:65 | every entry read from a list file is stripped and has no line break |
| Files.ListRoundTrip | src/files.py:88-90 | writing stripped, break-free entries and reading them back gives the non-empty ones in order |
| Files.ListText | src/files.py:88-90 | for entries without line breaks, what `write_text` writes reads back with universal newlines as the entries joined by "\n" |
| Files.RecentProjects | src/files.py:59-73 | a missing file, or one whose read raises OSError, gives []; otherwise exactly the listed paths that exist, each as many times as it is listed, in file order (a subsequence of the entries), each stripped and free of line breaks |
| Files.RecentListReadBack | src/files.py:65-73 | a written list of existing paths reads back as itself, in file order |
| Files.Only | src/files.py:66-71 | keeps exactly the elements that are in the set, each as often as it occurs, in their order (a subsequence), and all of them when all are in the set |
| Files.OnlyAppend | src/files.py:66-71 | filtering a concatenation filters each part, one after the other |
| Files.Except | src/files.py:83-85 | drops exactly the elements that are in the set, keeps a list without repeats free of repeats, and drops nothing when no element is in the set |
| Files.Dedup | src/files.py:82-85 | the reference deduplication has no repeats and the same elements as its input |
| Files.DedupDistinct | src/files.py:83-85 | a list without repeats is its own deduplication |
| Files.AppendNew | src/files.py:83-85 | the loop keeps what was collected as a prefix, adds only elements of its input, and keeps a list without repeats free of repeats |
| Files.AppendNewDedup | src/files.py:82-85 | the loop appends exactly the first occurrences, in order, of the elements not collected yet |
| Files.RecentAfterAdd | src/files.py:81-87 | the new list has 1 to 8 entries, starts with the project, has no duplicates, and holds nothing new besides the project |
| Files.RecentAfterAddOrder | src/files.py:81-87 | for every earlier list: the project followed by the deduplicated earlier list without it, cut to 8 |
| Files.RecentAfterAddDistinct | src/files.py:81-87 | when the earlier list has no repeats, the other projects keep their order and only the project moves to the front |
| Files.RecentKeepsAll | src/files.py:87 | when fewer than 8 projects were listed, none is dropped |
| Files.AddRecentProject | src/files.py:76-93 | a write that raises OSError is only logged; after a successful write of a well-formed, existing project, reading the list back gives exactly the new list computed from the old one |
| Files.DependenciesDone | src/files.py:96-107 | a missing file gives []; an unreadable one raises; otherwise the stripped non-empty lines, each stripped and free of line breaks |
| Files.MarkDependencyDone | src/files.py:110-126 | a name already listed leaves the file untouched; read errors propagate; an unlisted name succeeds iff the write does, and the list then reads back as the old non-empty names with the new one at the end |
| Files.DependenciesReadBack | src/files.py:106-126 | a list of names written to dependencies.txt reads back as its non-empty names, in order |
| Files.MarkIdempotent | src/files.py:123 | marking the same name twice leaves the same file as marking it once |
| Project.AsInt | src/project.py:57 | integers and booleans pass the `isinstance(v, int)` test; nothing else does |
| Project.MakeDependency | src/project.py:13-26 | fields are copied from the table; a missing `setup` key gives no setup commands |
| Project.VersionGate | src/project.py:56-62 | a config loads iff its format_version is 1 (or `true`); it is refused as unsupported iff it is an int above 1 |
| Project.LoadConfig | src/project.py:64-84 | an accepted config carries the table's repo, ROM, dependency and action data unchanged |
| Project.GetEnv | src/project.py:104-120 | without PATH the lookup fails; otherwise the keys are the old ones plus COMSPEC and PROMPT, both fixed, and all other variables are copied unchanged |
| Project.PathEntries | src/project.py:110-118 | the new PATH splits into every include path (dependency order, then path order) followed by the old PATH's entries |
| Project.IncludePathsAppend | src/project.py:111-114 | include paths of concatenated dependency lists concatenate |
| Project.IncludePaths | src/project.py:110-114 | a path is listed iff it is an include path of some dependency; a single dependency contributes its own paths in order |
| Project.RequiresSetup | src/project.py:122-142 | setup is required iff the environment directory, some dependency directory, or the ROM is missing |
| Project.SetupPlan | src/project.py:144-198 | plan construction fails only when the repository task needs `get_env` and PATH is missing; the root is "Create project" |
| Project.PlanOrder | src/project.py:153-198 | the root holds the dependency sequence, then the repository task iff not from an existing repo, then the ROM copy from the cache iff the ROM is missing |
| Project.DependencyPlan | src/project.py:156-174 | each dependency gets a sequence named after it, empty exactly when its directory exists |
| Project.DependencySteps | src/project.py:161-174 | a missing dependency is downloaded to the cache under its hash, extracted into its directory, then finished by its file operations |
| Project.DependencyLeavesEmpty | src/project.py:156-174 | the dependency part of the plan has no tasks iff every dependency directory exists |
| Project.NothingToDoWhenReady | src/project.py:129-198 | from an existing repo, the plan has no tasks iff all dependencies and the ROM exist, in particular when no setup is required |
| Project.OpenProjectRoute | src/page_start.py:104-114 | opening goes to the actions page, keeping the from-repo flag, iff the environment, every dependency directory and the ROM exist; otherwise the flag is set and it goes to setup-from-repo iff the ROM is in the cache, else to the ROM page |
| Download.ReportHook | src/task_impl.py:103-110 | cancellation is checked first; indeterminate iff the size is 0 or less; otherwise the fraction times the size equals the bytes fetched |
| Download.ReportUnclamped | src/task_impl.py:110 | more bytes than announced report a value above 1 |
| Download.TransferFailure | src/task_impl.py:120-143 | cancellation stays Cancelled, an unknown exception is re-raised, and every other transfer error fails with a "Download failed" message |
| Download.Check | src/task_impl.py:148-158 | success iff the file reads and its digest matches; a read error keeps the file; a mismatch deletes only that file, unless the deletion raises, which then escapes with the file kept |
| Download.AfterFailedTransfer | src/task_impl.py:122-139 | with a working clean-up the partial file is gone and the transfer's own failure is reported; if unlink raises, that error escapes and the partial file stays; nothing else changes |
| Download.DownloadAndValidate | src/task_impl.py:112-159 | no other file is touched, and success implies the file is present with the expected digest |
| Download.CacheHitSkipsTransfer | src/task_impl.py:114 | with the file already present, the outcome does not depend on the transfer |
| Download.FailedTransferRemovesFile | src/task_impl.py:122-139 | a failed transfer never succeeds; with a working clean-up it removes the destination and reports the transfer failure; a raising clean-up escapes and leaves the partial file |
| Download.MismatchDeletes | src/task_impl.py:154-157 | a wrong digest deletes the file and names it "cached" or "downloaded"; a raising deletion escapes and keeps the file |
| Download.ReadErrorKeepsFile | src/task_impl.py:150-153 | a read error fails and keeps the file |
| Download.MatchSucceeds | src/task_impl.py:155-159 | a matching digest succeeds and keeps the file |
| Extraction.Detect | src/task_impl.py:186-193 | zip is chosen iff the zip test passes; tar iff only the tar test passes; otherwise neither |
| Extraction.Extract | src/task_impl.py:186-193 | zip archives use the zip branch, tar archives the tar branch, and anything else fails with "Archive format was not recognised." |
| Extraction.Handled | src/task_impl.py:205-228 | an error a handler of the branch catches fails the task with that handler's message; any other error is raised with its own text |
| Extraction.ExtractMembers | src/task_impl.py:195-228 | the member loop equals the closed form: cancellation before member i stops before its report; a failing member is reported and not extracted, and ends the task as a failure or, when no handler catches its error, as that raised error; otherwise all n are reported |
| Extraction.Planned | src/task_impl.py:195-228 | every report before member i of n is i/n and no more members are written than reported; success iff nothing fails and no cancellation is seen among the members, and then all n are written; cancellation stops before its member's report; a failing member is reported and not written, and its error is handled or raised as Handled says |
| Extraction.EscapingErrorRaised | src/task_impl.py:195-208 | an error the handlers do not catch, raised by member i, ends the task with that error after i/n was reported and i members were written |
| Extraction.FractionsIncrease | src/task_impl.py:202 | the progress values i/n are strictly increasing |
| Extraction.FractionsBounds | src/task_impl.py:202 | the first value is 0, and every value lies between 0 and (n-1)/n, so below 1 |
| Extraction.CancelBeforeFailure | src/task_impl.py:200-203 | cancellation seen before a member wins over that member's failure |
| Extraction.EmptyArchive | src/task_impl.py:199-203 | an archive without members reports nothing and succeeds |
| Extraction.ZipMessage | src/task_impl.py:205-207 | an OSError in the zip branch fails with "Could not extract archive." and its strerror |
| Extraction.TarMessage | src/task_impl.py:221-228 | apart from the security filter, tar errors fail with "Could not extract archive." and the error's text |
| FileOps.Lower | src/task_impl.py:262 | lower-casing maps each character to its lower-case form and keeps the length |
| FileOps.LowerIdempotent | src/task_impl.py:262 | lower-casing twice is lower-casing once |
| FileOps.Arity | src/task_impl.py:266 | the arity is 1 exactly for "delete" and 2 for every other name |
| FileOps.Operation | src/task_impl.py:256-298 | a command without operands raises IndexError; a wrong count fails before anything is touched; a non-operation with two operands does nothing; only performed operations change the state |
| FileOps.NameCaseInsensitive | src/task_impl.py:262 | two commands whose names agree after lower-casing do the same thing |
| FileOps.WrongCountIff | src/task_impl.py:266-269 | a command fails on its operand count exactly when the count differs from its name's arity |
| FileOps.MixedCaseDelete | src/task_impl.py:262-269 | "DeLeTe" with one operand acts as "delete" and passes the count check |
| FileOps.RunFrom | src/task_impl.py:256-298 | the report after command i is i/len; a successful run reports once per command |
| FileOps.RunOperations | src/task_impl.py:256-298 | at most one report per command, each i/len, and all of them on success |
| FileOps.CancelledFirst | src/task_impl.py:257-259 | cancellation before the first command performs nothing and reports nothing |
| FileOps.FirstWrongCount | src/task_impl.py:266-269 | a wrong operand count in the first command fails the task with the state untouched |
| FileOps.UnknownOnly | src/task_impl.py:271-296 | a sequence of commands that are not operations succeeds and changes nothing |
| GitClone.DigitRunEnd | src/task_impl.py:386 | the run of digits starting at a position ends at the first non-digit |
| GitClone.PercentFrom | src/task_impl.py:386 | finds the leftmost match of `(\d+)%` and reports none iff the line has no match |
| GitClone.Percent | src/task_impl.py:386-387 | a line without a match contributes 0 |
| GitClone.Phase | src/task_impl.py:368 | the first phase name that starts the line, and none iff no phase name does |
| GitClone.PhaseProgress | src/task_impl.py:385-394 | nothing is reported iff no phase from the current one on starts the line; a report is at least the quarters already passed |
| GitClone.CloneProgress | src/task_impl.py:373-392 | a line reports iff, without its line ending, it starts with a phase name; phase k with first percentage p then reports (25k + p/4)/100 |
| GitClone.ProgressClosedForm | src/task_impl.py:383-392 | phase k and first percentage p report (25k + p/4)/100; a line with no phase reports nothing |
| GitClone.NonMatchingSilent | src/task_impl.py:384-392 | a line that starts with no phase name reports nothing |
| GitClone.ProgressWithinPhase | src/task_impl.py:383-392 | with p of at most 100, phase k reports a value in [k/4, (k+1)/4] |
| GitClone.LineReports | src/task_impl.py:372-394 | at most one report per line, none negative |
| GitClone.CancelledPrefix | src/task_impl.py:379-381 | cancellation seen after reading line i leaves exactly the reports of the lines before it |
| Commands.ExitCheck | src/task_impl.py:399-403 | cancelled gives Cancelled whatever the exit status; otherwise the task goes on iff the status is 0 |
| Commands.SetupGitRepo | src/task_impl.py:355-442 | cancellation seen after the clone wins over its exit status; an uncancelled failed clone gives its message; an OSError from the copy escapes with its text; success iff nothing failed and no cancellation was seen |
| Commands.CopyFailureBeforeCancel | src/task_impl.py:407-432 | a failed copy out of the temporary directory, collected errors or an escaping OSError, is reported even when cancellation follows it |
| Commands.CreateProjectFile | src/task_impl.py:465-486 | a copy error fails first; then cancellation wins over the `git add` status; success iff neither |
| Commands.FileCopy | src/task_impl.py:510-515 | succeeds iff the copy succeeds; the failure message is the caller's message, then a blank line and the error |
| Commands.FileCopyDetailLine | src/task_impl.py:496-515 | the error details stand on a line of their own after a blank line: the message's lines are the caller's lines, "", then the error |
| Commands.ExecuteCommand | src/task_impl.py:548-575 | cancelled iff cancellation was seen; success iff not cancelled and the exit status is 0 |
| Commands.CancelOutranksExitStatus | src/task_impl.py:399-403 | with a non-zero status, every command-waiting task is Cancelled when cancellation is seen |
| Commands.ExitStatusFails | src/task_impl.py:436-442 | uncancelled, a non-zero status fails with that step's own message |
| Commands.PrepareEnvironment | src/task_impl.py:68-79 | the child tasks run iff the directory is created and .gitignore is written; each error has its message |
| Commands.MarkDependencyComplete | src/task_impl.py:325-326 | a read error, or a failed write of a new name, escapes the task and leaves the file; otherwise the task succeeds |
| Version.EffectiveVersion | build.py:24-25 | an empty version number becomes "0.0.0"; any other is kept |
| Version.VersionText | build.py:27-30 | "V (Build C)" when there is a commit, otherwise "V" |
| Version.PartsFrom | build.py:32-40 | exactly four parts, each in [0, 65535]; it fails iff one of the first four fields is not an integer; part k is field k modulo 65536, or 0 when missing |
| Version.VersionParts | build.py:32-40 | a successful encoding has exactly four parts, each in [0, 65535] |
| Version.EncodeDotted | build.py:32-40 | a dotted version of one to four 16-bit numbers encodes to those numbers, padded with zeros |
| Version.EmptyVersionParts | build.py:24-40 | an empty version number is stamped with the parts [0, 0, 0, 0] |
| Version.ExtraPartsIgnored | build.py:34 | fields after the fourth do not affect the encoding |
| Version.BadPartFails | build.py:36 | a non-integer among the first four fields makes the encoding fail |
| Version.VersionFileText | build.py:84-86 | version.txt holds the version, one newline, and then the commit or "" |
| Version.VersionString | src/page_start.py:180-183 | reading succeeds iff the content splits on newline into exactly two fields |
| Version.VersionFileRoundTrip | src/page_start.py:180-190 | version.txt as the build writes it reads back as "Version V (Build C)", "Version V" or "", as the fields decide |

## Left out

- Qt widgets, signals and threads, and the task engine in `task_base`. `task_base` is not part of
  this model, so a task is reduced to its `run_impl` outcome and the progress values it reports.
- Subprocesses, pipes, CTRL_BREAK signalling and reader threads. A command is reduced to its exit
  status, plus the point at which cancellation is seen.
- Network transfer, SHA-256, zip and tar internals with the tar safety filter, `shutil` copy, move
  and rmtree, and `Path.resolve`. These are parameters: transfer results, a digest function,
  archive descriptions, an abstract filesystem, and a resolve function.
- TOML parsing. A config is built from an already parsed record. The texts of the config errors
  are not modelled; only which error is raised.
- `pathlib` normalisation and the comparison of `Path` objects. Paths are component sequences,
  and recent-project entries are compared as strings.
- Non-ASCII behaviour of `\d`, `int()` and `str.lower()`. Only ASCII digits and ASCII letters are
  modelled.
- IEEE floating point. Progress values are exact rationals.
- Logging, including the log-only buffer of git's output lines in `SetupGitRepoTask`.
- The rest of the Windows version resource that `get_version_file_content` renders with
  PyInstaller's classes. Only its version text and four numbers are modelled.
- `FileExtractionTask` removing and recreating the output directory before dispatch, and the
  OSErrors those steps can raise.
- The parent-directory `mkdir` before a download, and the indeterminate progress reported before
  the integrity check.
- `ExecuteActionTask`, which only chains `ExecuteCommandTask`s through the task engine.
- Commands.ExecuteCommand: a failure is modelled with the empty message. `TaskFailureException()`
  is raised without arguments, and its default message is defined in `task_base`, which is not
  part of this model.
- Terminal.AddLine: a row stands for its block, and it counts as empty exactly when its HTML is "".
  Qt's HTML import is not modelled, so a span that the import turns into an empty block is
  treated as a non-empty row.
- GitClone.LineReports: percentages above 100 are not bounded. Git never prints them, but the
  code does not check.
- Files.AddRecentProject: `write_text` truncates the file before writing, so a write that fails
  part-way can leave recent.txt empty or partly written. The model treats every failed write as one
  that fails before the file is opened, so the old contents stay.
- Files.RecentProjects: text is modelled as already decoded, and an unreadable file stands for
  an OSError only. `read_text` decodes with the locale's code page; a recent.txt the code page
  cannot decode raises UnicodeDecodeError, a ValueError that `except OSError` does not catch, so
  `get_recent_project_files` raises instead of returning [].
- Files.AddRecentProject: a project path the code page cannot encode makes `write_text` raise
  UnicodeEncodeError after its truncating open. That error is not an OSError, so it escapes
  `add_recent_project` instead of being logged; the model has no such path.
- Files.MarkDependencyDone: a failed write of dependencies.txt is modelled the same way; a write
  that fails after truncation is not.
- Commands.MarkDependencyComplete: "leaves the file" holds only for a write that fails before the
  file is opened, as in Files.MarkDependencyDone.
- Download.ReportHook: progress is stated as an exact fraction, not as the float division of the
  code.
