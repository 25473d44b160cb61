# hls-tui: a Dafny model of the terminal front end

hls-tui is a terminal front end for an HLS encoding script. The user names a
video, optionally with flags. The program derives the name the scripts
expect and the file to probe, builds the argument list for the enhanced or
the basic script, and runs the script. It reads every byte the script
writes, cuts that stream into lines at `\n` or `\r`, and shows progress.
Two kinds of line drive the progress: a job start line such as
`Converting to 1080p (` and an ffmpeg elapsed-time marker such as
`time=00:01:23.45`.

The project has one module per source file, plus two support modules:

- `Wrappers`: `Option` and `Result`.
- `Text`: Go string helpers over ASCII, namely `strings.TrimSpace`, ASCII
  `strings.ToLower`, `strings.Split` and `strings.Join` with a
  one-character separator, and decimal digit values.
- `Runner` (hls-tui/runner.go):
  - the split function given to `bufio.Scanner`, `dropCRLF` and the
    scanning loop, each a method proved against a pure specification
    (`Records`, `StripTrailingBreaks`, `Forwarded`);
  - `atoi`, `atof` and `parseHHMMSStoSeconds`;
  - the two regular expressions, written out as leftmost-first matchers
    together with predicates that say what a match is;
  - `updateProgressFromFFmpegLine` and `detectJobStartHeight`.
- `Tui` (hls-tui/main.go):
  - the `model` value as a datatype;
  - `Update` as the function `Transition` plus a method that makes the
    same field updates step by step;
  - `Run`, to reason about the model after a sequence of messages;
  - `initialModel`, `scriptName` and `bashWrapArgs`.
- `Cli` (hls-tui/cmd.go):
  - `filepath.Base`, `filepath.Ext` and `normalizeFilename`;
  - the loop that splits the argument vector into the filename and the
    flag tokens, as a method proved against the function `Partition`;
  - the usage and missing-filename exits;
  - the script arguments (`passArgs`) and the model `main` builds.

The model keeps these behaviours of the code, which a reader may not expect:

- **Progress is not monotone.** The overall fraction drops back to
  `jobDone / totalJobs` (or 0) on any line without an elapsed-time marker,
  because the running job's fraction is always computed from 0
  (`LineWithoutMarker`).
- **The job count is never set.** `totalJobs` is only read
  (hls-tui/main.go:140, 148-149, 163-164). Neither `initialModel` nor
  `main` assigns it, so it stays 0. The overall fraction is then the
  running job's fraction and stays in [0, 1] (`LaunchedPercentInRange`).
  For a model with a non-zero `totalJobs`, the fraction can pass 1 only
  once `jobDone` reaches `totalJobs`. That happens through more job start
  lines than `totalJobs`, or through a line read after the finish message,
  which counts every job. A line can come after the finish because the
  enter key (hls-tui/main.go:115) and the start message
  (hls-tui/main.go:133) each leave a wait for the next event pending. The
  fraction is then at most (total + 1) / total (`LinePercentBounds`,
  `LineWhenAllCounted`).
- **Repeated resolutions still count.** A job start closes the running job
  even when it repeats the same resolution (`LineJobCounting`).
- **Empty tokens can be dropped.** An empty token before the filename is
  lost, unless it is the value of a bare `-q` or `-r`, which keeps it
  (`Kept`, `PartitionCounts`, `PartitionEmptyValueExample`).
- **Upper-case video extensions are kept.** An upper-case video extension is
  recognised but not cut off, because the cut uses the lower-case spelling
  (`NormalizeUpperCaseExtension`).

## Model

| member | source | states |
|---|---|---|
| Text.TrimSpace | hls-tui/runner.go:35 | strings.TrimSpace on ASCII whitespace: the result is never longer than the input |
| Text.TrimSpaceEnds | hls-tui/runner.go:35 | the trimmed line has no whitespace at either end |
| Text.TrimSpaceIdempotent | hls-tui/runner.go:35 | trimming an already trimmed line changes nothing |
| Text.TrimLeftRemovesSpace | hls-tui/runner.go:35 | only whitespace is removed from the front |
| Text.TrimRightRemovesSpace | hls-tui/runner.go:35 | only whitespace is removed from the back |
| Text.Lower | hls-tui/cmd.go:17 | ASCII lower-casing keeps the length and maps each byte on its own |
| Text.Split | hls-tui/runner.go:81 | strings.Split gives at least one piece and no piece holds the separator |
| Text.SplitJoin | hls-tui/runner.go:81 | splitting a join of separator-free parts gives the parts back |
| Text.JoinSplit | hls-tui/runner.go:81 | joining the pieces of a split rebuilds the string |
| Text.DigitsValueBound | hls-tui/runner.go:16 | n digits denote a number below 10^n |
| Runner.FirstBreakFacts | hls-tui/runner.go:24-28 | the scan stops at the first `\n` or `\r`, with none before it |
| Runner.DropCRLF | hls-tui/runner.go:42-49 | the loop removes exactly the run of trailing terminators |
| Runner.StripTrailingBreaks | hls-tui/runner.go:42-49 | what remains is a prefix that does not end in a terminator, and only terminators were removed |
| Runner.StripIdempotent | hls-tui/runner.go:42-49 | dropping terminators twice is dropping them once |
| Runner.StripIdentity | hls-tui/runner.go:42-49 | a slice without a trailing terminator is returned unchanged |
| Runner.SplitRecord | hls-tui/runner.go:23-33 | at a terminator, consume through it and return the bytes before it; at end of stream, return the unterminated rest; otherwise ask for more input; no token holds a terminator |
| Runner.ScanLines | hls-tui/runner.go:19-40 | the lines sent are the trimmed, non-empty records of the stream, in stream order |
| Runner.Forward | hls-tui/runner.go:35-38 | one loop step sends the trimmed token exactly when it is not empty |
| Runner.ScanStep | hls-tui/runner.go:34-39 | the scanning loop's invariant survives one record |
| Runner.RecordsAfterSplit | hls-tui/runner.go:23-33 | one split step peels exactly the first record off the stream |
| Runner.ForwardedStep | hls-tui/runner.go:23-39 | what one step forwards plus what the rest forwards is what the whole stream forwards |
| Runner.Records | hls-tui/runner.go:23-34 | the records a complete stream is cut into: none exactly for the empty stream, and at most one per character |
| Runner.Forwarded | hls-tui/runner.go:34-39 | what the scan loop sends for the records: at most one line per record |
| Runner.RecordsHaveNoBreaks | hls-tui/runner.go:23-33 | no record contains `\n` or `\r` |
| Runner.RecordsRoundTrip | hls-tui/runner.go:23-33 | splitting `\n`-terminated records gives the records back |
| Runner.ForwardedAppend | hls-tui/runner.go:34-39 | forwarding keeps stream order across any split point |
| Runner.ForwardedAreTrimmed | hls-tui/runner.go:35-38 | every forwarded line is non-empty and already trimmed |
| Runner.ForwardedUntrimmed | hls-tui/runner.go:35-38 | for records without whitespace at their ends, exactly the non-empty ones are forwarded |
| Runner.CrLfRecord | hls-tui/runner.go:22-33 | `\r\n` ends a record and then an empty one, and the empty record is not forwarded |
| Runner.RecordsCons | hls-tui/runner.go:24-28 | a record and its terminator come off the front of the stream |
| Runner.SplitExample | hls-tui/runner.go:22-39 | `a\r\nb\rc\n` is cut into "a", "", "b", "c" and forwards "a", "b", "c" |
| Runner.LeadingDigitsFacts | hls-tui/runner.go:16 | the measured digit run is all digits and is followed by a non-digit |
| Runner.Atoi | hls-tui/runner.go:92-95 | atoi of a digit string is its decimal value |
| Runner.Atof | hls-tui/runner.go:97-102 | atof of a digit string is its decimal value |
| Runner.AtofSeconds | hls-tui/runner.go:97-102 | atof of `SS` or `SS.f` lies in [SS, SS + 1) |
| Runner.AtofUnsigned | hls-tui/runner.go:97-102 | atof of an unsigned string without surrounding whitespace is its decimal mantissa |
| Runner.TruncWholePlus | hls-tui/runner.go:89 | the float-to-int conversion truncates a whole number plus a fraction to the whole number |
| Runner.ParseHHMMSSDigits | hls-tui/runner.go:80-90 | `HH:MM:SS[.f]` gives 3600*HH + 60*MM + SS, with the fraction truncated away |
| Runner.ClockParts | hls-tui/runner.go:81 | three colon-free fields joined by colons split back into themselves |
| Runner.ParseHHMMSSParts | hls-tui/runner.go:80-89 | with exactly three parts the result is the clock value of those parts |
| Runner.SplitCount | hls-tui/runner.go:81-82 | strings.Split gives one more part than there are separators |
| Runner.ParseHHMMSS | hls-tui/runner.go:80-90 | the result is 0 unless the input has exactly two colons |
| Runner.FindTimeFrom | hls-tui/runner.go:14 | the elapsed-time match found is the leftmost one, and None means there is no match |
| Runner.CaptureEnd | hls-tui/runner.go:14 | the submatch ends within the line, after SS; it takes a `.digits` suffix whenever a dot and a digit follow SS, and then all of its digits |
| Runner.CaptureSeconds | hls-tui/runner.go:14 | the submatch parses to the clock value written at the match |
| Runner.CaptureFraction | hls-tui/runner.go:14 | the optional suffix of a match is a dot and one or more digits |
| Runner.CaptureShape | hls-tui/runner.go:14 | the submatch is `HH:MM:SS` or `HH:MM:SS.f` made of digits |
| Runner.ProgressFromLeftmostMarker | hls-tui/runner.go:52-69 | the progress is min(1, seconds at the leftmost marker / duration), or unchanged when the duration is not positive or the clock reads 0 |
| Runner.ProgressWithoutMarker | hls-tui/runner.go:57-60 | a line without a marker leaves the progress unchanged |
| Runner.UpdateProgress | hls-tui/runner.go:52-69 | the progress is either unchanged or a fraction in (0, 1] |
| Runner.LeadingBlanksFacts | hls-tui/runner.go:16 | the greedy `\s+` run is all blanks and is followed by a non-blank |
| Runner.AfterLiteralIsPrefix | hls-tui/runner.go:16 | matching the literal prefix succeeds exactly on lines that start with it, returning what follows |
| Runner.DetectJobStartHeight | hls-tui/runner.go:72-78 | the height is between 0 and 9999 |
| Runner.HeightValue | hls-tui/runner.go:16 | three or four digits read by atoi give their value, at most 9999 |
| Runner.MatchJobStart | hls-tui/runner.go:16 | a match holds three or four digits, the captured height |
| Runner.MatchJobStartSound | hls-tui/runner.go:16 | whatever the matcher returns is a genuine job start line with those pieces |
| Runner.MatchMarkerBodySound | hls-tui/runner.go:16 | whatever the body matcher returns is a genuine marker body with those pieces |
| Runner.MatchJobStartComplete | hls-tui/runner.go:16 | every genuine job start line is recognised, with the same pieces |
| Runner.MatchMarkerBodyComplete | hls-tui/runner.go:16 | every genuine marker body is recognised, with the same pieces |
| Runner.MarkerRuns | hls-tui/runner.go:16 | the greedy runs measure exactly the blanks, digits and blanks of a marker |
| Runner.DetectJobStartHeightSpec | hls-tui/runner.go:72-78 | the result is the number written in a job start line, 0 when there is no match, and non-zero only for a job start line |
| Tui.InitialModel | hls-tui/main.go:58-75 | a fresh model is not started or done, has no error, status Ready, no progress, no jobs, an empty 80x14 log |
| Tui.Update | hls-tui/main.go:104-178 | the step-by-step update returns the model and command `Transition` states; it keeps the job count and the job bound, never lowers the finished-job counter, and finishing or failing ends the session with no command |
| Tui.OnLine | hls-tui/main.go:134-159 | the line case returns the model `AfterLine` states and the command that animates to the new percent |
| Tui.Transition | hls-tui/main.go:104-178 | no message changes the configuration or the number of jobs |
| Tui.Run | hls-tui/main.go:104-178 | over any message sequence the configuration and the number of jobs stay as they were |
| Tui.StepFacts | hls-tui/main.go:104-178 | every message keeps the job count and bound, never lowers the finished-job counter, and never undoes started, done or an error |
| Tui.RunAppend | hls-tui/main.go:104-178 | running two message sequences in turn is running their concatenation |
| Tui.LineJobCounting | hls-tui/main.go:138-144 | a job start sets the current height; the finished-job counter grows by exactly one iff a job was running and not all jobs are counted |
| Tui.RunKeepsJobBound | hls-tui/main.go:138-144 | whatever messages arrive, the finished-job counter never passes the number of jobs |
| Tui.RunMonotone | hls-tui/main.go:104-178 | over any message sequence the finished-job counter never decreases and started, done and an error are never undone |
| Tui.InnerRange | hls-tui/main.go:146 | the running job's fraction, computed from 0, lies in [0, 1] |
| Tui.LinePercentBounds | hls-tui/main.go:146-151 | the overall fraction is non-negative, at most 1 with no job count or with jobs outstanding, and at most (total + 1) / total otherwise |
| Tui.OverallBounds | hls-tui/main.go:147-150 | finished jobs plus a running fraction over the total stays within those bounds |
| Tui.LineWithoutMarker | hls-tui/main.go:146-151 | a line without a marker drops the fraction to the share of finished jobs, or 0 |
| Tui.LineWithMarker | hls-tui/main.go:146-151 | a line with a marker sets the fraction from the leftmost marker's clock and the finished jobs |
| Tui.LineStatusAndLog | hls-tui/main.go:152-158 | status and log change only on a non-blank line, which becomes the status and is appended with a newline; the log only grows |
| Tui.FinishedSettles | hls-tui/main.go:160-168 | finishing marks the session done at 100 percent with every job counted, and changes nothing else |
| Tui.LineWhenAllCounted | hls-tui/main.go:134-159 | a line arriving when every job is counted, as after finishing, gives (total + inner) / total, which passes 1 exactly when the line's running-job fraction is positive |
| Tui.FailedKeepsProgress | hls-tui/main.go:169-173 | a failure records the error and ends the session, leaving everything else unchanged |
| Tui.KeyCommands | hls-tui/main.go:106-117 | q and ctrl+c always quit, enter starts only before start and before the end, and no key changes the model |
| Tui.StepKeepsUnitPercent | hls-tui/main.go:104-178 | without a job count, every message keeps the overall fraction in [0, 1] |
| Tui.RunKeepsUnitPercent | hls-tui/main.go:104-178 | without a job count, the overall fraction stays in [0, 1] over any message sequence |
| Tui.NoStartAfterDone | hls-tui/main.go:113-116 | once the session is done, no later message sequence lets enter start the encoder |
| Tui.WindowSizeBounds | hls-tui/main.go:118-129 | only the widget sizes change: the log is 6 columns narrower than the window and max(height - 12, 6) rows high; the progress bar becomes width - 6 when the window is wider than 6 columns and is kept otherwise |
| Tui.StartedBegins | hls-tui/main.go:130-133 | the start notification sets started and the Encoding status, asks for the next event, and changes nothing else |
| Tui.ScriptName | hls-tui/main.go:212-217 | enhanced mode runs `enhanced_hls.sh` and basic mode `hls_script.sh`, both `.sh` files |
| Tui.ScriptNamesDiffer | hls-tui/main.go:212-217 | the two modes run different scripts |
| Tui.BashWrapArgs | hls-tui/main.go:223-233 | outside Windows the command is passed through; on Windows it is `bash -lc` with the space-joined command line |
| Tui.BashWrapArgsRoundTrip | hls-tui/main.go:223-233 | the Windows command line splits back into the program and its arguments when none contains a space |
| Cli.TrimTrailingSlashes | hls-tui/cmd.go:16 | the result is a prefix of the path that does not end in a slash |
| Cli.TrimTrailingSlashesRemoves | hls-tui/cmd.go:16 | only slashes are removed |
| Cli.AfterLastSlashFacts | hls-tui/cmd.go:16 | the last element is a slash-free suffix that starts after a slash or at the start |
| Cli.Base | hls-tui/cmd.go:16 | "." for the empty path, "/" for a path of slashes, and otherwise the whole last element: the slash-free end of the path without its trailing slashes, starting after a slash or at the start |
| Cli.Ext | hls-tui/cmd.go:17 | the extension is a suffix of the name, empty or starting with a dot |
| Cli.ExtAfterLastDot | hls-tui/cmd.go:17 | after its dot the extension has no dot and no slash |
| Cli.TrimSuffix | hls-tui/cmd.go:20 | the suffix is removed when present and the string is kept otherwise |
| Cli.NormalizeFilename | hls-tui/cmd.go:15-27 | the name is a prefix of the last path element; the probe is that element exactly when its lowered extension is .mp4, .mov or .m4v, and otherwise that element with ".mp4" appended |
| Cli.NormalizeVideoExtension | hls-tui/cmd.go:15-23 | a lower-case .mp4, .mov or .m4v is cut off the name and the file itself is probed |
| Cli.NormalizeUpperCaseExtension | hls-tui/cmd.go:17-23 | an upper-case video extension is recognised but stays in the name |
| Cli.NormalizeOtherExtension | hls-tui/cmd.go:24-25 | any other extension stays in the name and the probe gets `.mp4` appended |
| Cli.ExtAfterDot | hls-tui/cmd.go:17 | a name ending in a dot and a dot-free, slash-free suffix has that extension |
| Cli.NormalizePathExample | hls-tui/cmd.go:15-20 | `/videos/talk.mp4` gives ("talk", "talk.mp4") |
| Cli.NormalizeUpperCaseExample | hls-tui/cmd.go:15-23 | `clip.MP4` gives ("clip.MP4", "clip.MP4") |
| Cli.NormalizePlainExample | hls-tui/cmd.go:24-25 | `movie` gives ("movie", "movie.mp4") |
| Cli.FindFilename | hls-tui/cmd.go:41-64 | a filename position found lies in the argument vector |
| Cli.FindFilenameFacts | hls-tui/cmd.go:41-64 | the filename is the least qualifying token, and None means no token qualifies |
| Cli.PartitionArgs | hls-tui/cmd.go:36-67 | the loop yields the filename token and the flag tokens that `Partition` states |
| Cli.Partition | hls-tui/cmd.go:41-67 | the filename is empty or one of the tokens, and never starts with "-" |
| Cli.PartitionWith | hls-tui/cmd.go:41-67 | with a filename at f, it is argv[f] and the flag tokens are the kept tokens before it and every token after it |
| Cli.PartitionKeepsOrder | hls-tui/cmd.go:41-67 | without empty tokens the flag tokens are argv minus the filename, in order, and reinserting the filename rebuilds argv |
| Cli.KeptCounts | hls-tui/cmd.go:41-59 | before the filename only empty tokens are ever dropped |
| Cli.PartitionCounts | hls-tui/cmd.go:41-67 | every non-empty token ends up exactly once, as the filename or a flag token |
| Cli.PartitionFilename | hls-tui/cmd.go:61-64 | the filename is empty exactly when no token qualifies, and a filename never starts with `-` |
| Cli.PartitionValueExample | hls-tui/cmd.go:43-47 | a bare -q consumes the next token as its value |
| Cli.PartitionEmptyValueExample | hls-tui/cmd.go:43-47 | an empty token after a bare -q is kept as its value |
| Cli.PartitionInlineValueExample | hls-tui/cmd.go:52-54 | `-q=value` consumes nothing |
| Cli.PartitionFlagAsValueExample | hls-tui/cmd.go:43-57 | a bare -q that is itself a value consumes nothing |
| Cli.PartitionMissingExample | hls-tui/cmd.go:43-71 | a name right after a bare -q is its value, leaving no filename |
| Cli.ParseCommandLine | hls-tui/cmd.go:29-73 | fewer than two arguments is the usage exit, no filename is the missing-filename exit, otherwise the partition and the normalized names |
| Cli.CommandLineOutcome | hls-tui/cmd.go:36-71 | the missing-filename exit happens exactly when no token qualifies, and otherwise the filename is that token |
| Cli.PassArgs | hls-tui/cmd.go:111-130 | nothing is passed exactly when no option the mode passes is set |
| Cli.BuildPassArgs | hls-tui/cmd.go:111-130 | the option-by-option build equals `PassArgs` |
| Cli.PassArgsRoundTrip | hls-tui/cmd.go:113-125 | in enhanced mode the script reads back exactly the -t, -hw, -r and -q values it was given |
| Cli.BasicPassArgs | hls-tui/cmd.go:126-130 | in basic mode only -t reaches the script |
| Cli.DefaultPassArgs | hls-tui/cmd.go:104-125 | with default flags the enhanced script gets `-r 1440,1080,720 -q balanced` only |
| Cli.LaunchModel | hls-tui/cmd.go:132-137 | the program's model is the initial model with the script arguments, the paths and the first argument filled in, and no job count |
| Cli.LaunchedPercentInRange | hls-tui/cmd.go:132-137 | from the model main starts, the job count stays 0 and the overall fraction stays in [0, 1] whatever messages arrive |
| Cli.LaunchScript | hls-tui/cmd.go:111 | the -basic flag selects `hls_script.sh`, its absence `enhanced_hls.sh` |

## Left out

- Processes and I/O are not modelled: goroutines, channels, `select`,
  `startEncoding`, `waitForNextEvent` and `runScript` (hls-tui/main.go:180-210
  and after 235). Messages arrive as a sequence of `Msg` values instead.
- The cancel function is not modelled. `startEncoding` stores it on a copy of
  the model, so `Update` never has one to call on quit.
- Runner.ScanLines: chunked reads are not modelled. The method scans one
  complete stream and always calls `SplitRecord` with `atEOF` true, so a
  record cut by a buffer boundary, and the "need more input" answer of
  `SplitRecord`, never occur in it.
- `bufio.Scanner`'s buffer limits are not modelled (hls-tui/runner.go:20-21).
  Lines longer than 1 MiB are out of scope.
- `View` is not modelled, nor the rendering of the progress bar and viewport,
  the viewport's scroll position or lipgloss styles. `Update` keeps only the
  widths and the height it writes.
- hls-tui/ffprobe.go is not part of this model. The duration is a parameter
  of `Cli.LaunchModel`.
- `flag.FlagSet` parsing (hls-tui/cmd.go:95-109) is not modelled. The parsed
  values are a `FlagValues` input.
- `filepath.Dir`, `filepath.Abs` and `filepath.Join` are not modelled, and
  neither are `workDir`, `probePath` and the choice of the first script
  argument (hls-tui/cmd.go:74-93). They are parameters of `Cli.LaunchModel`.
- The usage text, the error prints and `os.Exit` are not modelled. The model
  has the `Failure(Usage)` and `Failure(MissingFilename)` results instead.
- `runtime.GOOS` is a parameter of `Tui.BashWrapArgs`.
- Paths use `/` only. Windows separators and volume names are not modelled.
- Runner.Atof: float64 rounding is left out. Reals stand for float64, and the
  exponent, `inf`, `nan` and hexadecimal forms of strconv.ParseFloat read as 0.
- Runner.Atoi: strconv.Atoi's 64-bit range is left out. On an
  out-of-range value Go returns the value clamped to the int64 limits,
  and `atoi` keeps it; the model returns the exact value. Every caller
  passes at most four digits (the captures of the two regular expressions
  at hls-tui/runner.go:14 and 16), so the difference never arises here.
- Text.TrimSpace: only ASCII whitespace is trimmed. Unicode spaces such as
  U+0085 and U+00A0 are kept.
- Tui.Update: the progress bar's own animation is not modelled. The model
  records only the `SetPercentAndWait` target.
