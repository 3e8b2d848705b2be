# playlist-fixer, modelled in Dafny

playlist-fixer repairs a playlist whose entries point at audio files that
were converted to another format. A reader streams the playlist's lines. A
task processor keeps each entry whose path exists and otherwise swaps its
extension for the configured one. A statistics stage lists the paths that
were missing. A writer writes the resulting playlist. `main` joins the four
threads and reports their errors.

This project models each stage's sequential logic. The stages' channels are
sequences. The filesystem is the set of paths that exist. Every non-blocking
poll is an oracle `seq<bool>`, read at the index of the entry or line being
handled; `[]` means the condition never occurs. Each imperative stage is a
method whose loop follows the source, proved equal to a recursive reference
function. The properties are lemmas about those functions.

| file | module | models |
|---|---|---|
| `common.dfy` | `Common` | the crate's `Result<(), Error>`, an option type, the oracle poll |
| `path_repair.dfy` | `PathRepair` | `get_processed_path` and the `Path::extension` rules it relies on |
| `task_processor.dfy` | `TaskProcessor` | the loop of `process_task` and `end_txes` |
| `reader.dfy` | `Reader` | the loop of `read_entries` and `end_task_tx` |
| `stats.dfy` | `Stats` | `Stat` and `process_stats`, with printed lines as a sequence of `Printed` |
| `writer.dfy` | `Writer` | `write_entries`, with the output file as an append-only string |
| `conf.dfy` | `Conf` | `Config` and `Config::validate` |
| `app.dfy` | `App` | the error-aggregation block of `main` |
| `pipeline.dfy` | `Pipeline` | the four stages composed as `main` wires them, with end-to-end lemmas |

## Model

| member | source | states |
|---|---|---|
| PathRepair.ProcessedPath | src/task_processor/mod.rs:67-74 | the result ends with the new extension; with no extension it is the path followed by the new extension; with extension `e`, the path is the result's stem, then `.`, then `e` |
| PathRepair.ExtensionShape | src/task_processor/mod.rs:68-71 | an extension is the `.`-free, `/`-free suffix after a `.` of the final segment, and that `.` is not the segment's first character |
| PathRepair.NoExtensionIff | src/task_processor/mod.rs:68-71 | no extension exactly when the final segment is `..` or has no `.` after its first character |
| PathRepair.ExtensionOfSplit | src/task_processor/mod.rs:68-71 | a stem, a `.` and a `.`-free, `/`-free suffix has that suffix as its extension, including the empty one (`file.`) |
| PathRepair.NoExtensionOfSplit | src/task_processor/mod.rs:68-71 | a final segment without `.` has no extension |
| PathRepair.RepairKeepsStem | src/task_processor/mod.rs:72-73 | every character before the cut is kept, the cut lies in the final segment, and the new extension follows it character by character |
| PathRepair.RepairIdempotent | src/task_processor/mod.rs:67-74 | repairing with `.x` produces extension `x`, so repairing again changes nothing |
| PathRepair.RepairOfSplit | src/task_processor/mod.rs:72-73 | `stem + "." + e` is repaired to `stem + newExt` |
| PathRepair.RepairWithoutDot | src/task_processor/mod.rs:71-73 | a final segment without `.` gets the new extension appended |
| PathRepair.RepairExampleAscii | src/task_processor/mod.rs:87-93 | the unit test's ASCII case |
| PathRepair.RepairExampleNoExtension | src/task_processor/mod.rs:95-101 | the unit test's case without an extension |
| PathRepair.RepairExampleCjk | src/task_processor/mod.rs:103-109 | the unit test's CJK case: multi-byte text before the cut is kept intact |
| TaskProcessor.ProcessTask | src/task_processor/mod.rs:15-64 | the loop's stats, forwarded paths, task-quit flag and exit are those of the reference run `Run` |
| TaskProcessor.ExistingForwardedUnchanged | src/task_processor/mod.rs:22-25 | an existing entry is forwarded unchanged and produces no event |
| TaskProcessor.EntryStatsSpec | src/task_processor/mod.rs:28-49 | `OriginalPathNotFound(q)` exactly for a missing entry `q`; `SubstitutionNotFound(q)` exactly when the forwarded `q` does not exist; the former comes first; never `End` |
| TaskProcessor.ResolveNonEmpty | src/task_processor/mod.rs:67-74 | a non-empty entry is never forwarded as the empty sentinel |
| TaskProcessor.StatsOfNoEnd | src/task_processor/mod.rs:28-49 | the events of entries never contain `End` |
| TaskProcessor.RunPrefix | src/task_processor/mod.rs:15-58 | entries that meet no quit, no closed channel and no sentinel contribute their events and forwarded paths in order, ahead of the rest of the run |
| TaskProcessor.SentinelRun | src/task_processor/mod.rs:16-62 | an empty message ends the loop; every earlier entry is forwarded in order; `End` and the sentinel follow exactly when writer-quit is not pending at loop exit |
| TaskProcessor.WriterQuitRun | src/task_processor/mod.rs:51-62 | when writer-quit is pending at an entry, that entry's events are sent, it is not forwarded, task-quit is raised, and neither `End` nor the sentinel is sent |
| TaskProcessor.EndMarkers | src/task_processor/mod.rs:60-79 | under any oracles, `End` and the sentinel are sent together, at most once, last, and only on the drained exit; task-quit is raised exactly on the writer-quit exit |
| TaskProcessor.RunCorrected | src/task_processor/mod.rs:16 | the corrected loop never reaches the panic and agrees with `Run` on every stream that holds a sentinel |
| TaskProcessor.NeverClosed | src/task_processor/mod.rs:16-20 | a stream that holds a sentinel never runs the loop dry |
| Reader.ReadEntries | src/reader/mod.rs:7-41 | the method sends what the reference `Read` sends and returns its result, including the open failure |
| Reader.ReadPrefix | src/reader/mod.rs:18-34 | lines read with no error and no stop contribute their entries in order, ahead of the rest |
| Reader.ReadAll | src/reader/mod.rs:18-45 | with no read error, no quit and no closure, the reader sends exactly the kept lines in file order, then one sentinel, and returns `Ok` |
| Reader.ReadUntilQuit | src/reader/mod.rs:28-38 | a quit pending at a kept line means that line and every later one are not sent, no sentinel is sent, and the result is `Ok` |
| Reader.ReadUntilError | src/reader/mod.rs:19-21 | a read error returns `Err` at once; lines already sent stay sent and no sentinel follows |
| Reader.KeptAreEntries | src/reader/mod.rs:24-26 | no kept line is empty or starts with `#` |
| Reader.OnlyEntriesSent | src/reader/mod.rs:18-45 | under any oracles, every message is an entry except an empty sentinel, which can only be last and is sent only after every line was read with no quit pending |
| Stats.PrintSummary | src/stats/mod.rs:33-41 | nothing for an empty buffer, otherwise the header with the buffer's length and then each buffered path in order |
| Stats.ProcessStats | src/stats/mod.rs:12-44 | printed lines equal `StatsOutput(events)`, and the result is always `Ok` |
| Stats.StepAppend | src/stats/mod.rs:21-29 | a missing original is printed at once; an unresolved substitution is appended to the buffer |
| Stats.OutputWithoutEnd | src/stats/mod.rs:15-19 | with no `End`, only the missing originals are printed |
| Stats.OutputAtFirstEnd | src/stats/mod.rs:21-22 | the first `End` ends the loop, and the summary of what was buffered before it follows |
| Stats.AfterEndIgnored | src/stats/mod.rs:21-22 | events after the first `End` are never consumed |
| Stats.ClosedPrintsNoSummary | src/stats/mod.rs:16-19 | a channel that closes before `End` gets the missing originals printed and no header |
| Stats.OutputAfterEnd | src/stats/mod.rs:32-41 | after `End`, the originals in arrival order and then the summary of the buffered paths |
| Stats.SummaryAfterEnd | src/stats/mod.rs:26-41 | after `End`, a header appears exactly when a substitution was unresolved; its count is the number of them, and those paths follow in arrival order |
| Writer.WriteEntries | src/writer/mod.rs:12-57 | the file content, quit flag and result are those of the reference `Write` |
| Writer.WritePrefix | src/writer/mod.rs:40-52 | writes that do not fail append one CRLF line per path, in order |
| Writer.WriteSucceeds | src/writer/mod.rs:33-56 | `Ok` exactly when the file is created and no write before the first empty message fails; then the file is `"#\r\n"` plus `p + "\r\n"` for each path, and no quit is raised |
| Writer.WriteFails | src/writer/mod.rs:18-51 | `Err` exactly when quit is raised; create failure leaves nothing written; a header failure writes nothing; a line failure keeps everything written before it |
| Writer.ClosedIsSentinel | src/writer/mod.rs:41-44 | a closed channel ends the output like an empty message |
| Writer.LinesAppend | src/writer/mod.rs:46 | the lines of two path sequences are the lines of the first followed by those of the second |
| Conf.Validate | src/conf/mod.rs:23-48 | `Ok` exactly when all three fields are non-empty and the files differ; any error carries one of the four messages |
| Conf.ValidateFirstFailureWins | src/conf/mod.rs:24-45 | each message comes exactly when its check is the first to fail, in the order input, output, extension, equality |
| Conf.ValidExample | src/conf/mod.rs:109-118 | the valid example passes |
| Conf.InvalidExamples | src/conf/mod.rs:121-168 | the four invalid examples fail, each with its own message, including equal non-empty files |
| App.ReportErrors | src/main.rs:39-66 | `is_error` holds exactly when some stage failed; standard error gets `ErrorReport`; the result is always `Ok` |
| App.CollectErrors | src/main.rs:39-56 | the messages of the failed stages, in stage order; the flag is set exactly when one was collected |
| App.PrintErrors | src/main.rs:58-64 | an empty line, the header, then each message in order |
| App.MessagesOfFour | src/main.rs:41-56 | one message for each failed stage and none for the others, in the order reader, task processor, stats, writer |
| App.MessagesOrder | src/main.rs:41-56 | messages keep the order of their stages |
| App.MessagesEmptyIff | src/main.rs:39-56 | no message is collected exactly when no stage failed |
| App.ReportIffError | src/main.rs:58-64 | nothing is printed exactly when every stage succeeded; otherwise at least one message follows the header |
| Pipeline.TaskOutcome | src/task_processor/mod.rs:33-64 | `process_task` returns `Err` exactly on a failed send |
| Pipeline.ResolveIsEntry | src/task_processor/mod.rs:67-74 | the path forwarded for an entry is itself an entry: it starts with the entry's first character |
| Pipeline.ForwardedEntries | src/task_processor/mod.rs:15-58 | every path forwarded for a run of entries is an entry |
| Pipeline.CalmRead | src/reader/mod.rs:18-45 | with no errors and no signals, the reader sends the kept lines and a sentinel |
| Pipeline.CalmTask | src/task_processor/mod.rs:15-64 | on kept lines plus a sentinel, the task processor forwards each resolved entry and then the end markers |
| Pipeline.CalmDownstream | src/writer/mod.rs:40-56 | the statistics print the originals and the summary; the writer writes the playlist of the forwarded paths |
| Pipeline.EndToEnd | src/main.rs:17-66 | reader, task processor, statistics and writer composed with no failure and no quit: the file is the marker line and one line per kept entry, in input order (the entry if it exists, else its repaired path); `End` follows the events; nothing is reported |
| Pipeline.ExistingEntriesVerbatim | src/main.rs:17-37 | every kept entry that exists is written verbatim at its own position, and every written line is an entry |
| Pipeline.ReportComplete | src/main.rs:34-64 | an aborted run is exactly one whose task processor met the closed channel; otherwise the run counts as failed exactly when a stage failed, and each failed stage's message is on standard error |
| Pipeline.OpenFailureAborts | src/reader/mod.rs:12-14 | as written, an input file that cannot be opened makes the task processor panic and `main` abort |
| Pipeline.ReadFailureAborts | src/reader/mod.rs:18-26 | as written, under every schedule, a read error at a line preceded only by comments and empty lines makes the reader send nothing and return that error, and `main` abort |
| Pipeline.CorrectedReportsReaderFailure | src/main.rs:34-64 | with the corrected task processor every run is reported and a reader failure is on standard error; the two runs agree whenever the task processor does not meet the closed channel |
| Pipeline.ScenarioRepaired | src/task_processor/mod.rs:22-49 | existing entry, a comment ending in `/`, blank line and a missing `.flac` whose `.m4a` exists: the file is `#`, `/m/a.mp3`, `/m/b.m4a`; one `OriginalPathNotFound`; no summary |
| Pipeline.ScenarioUnresolved | src/task_processor/mod.rs:40-49 | a missing `.wav` whose `.m4a` is missing too: the `.m4a` is still written, and both paths are reported |
| Pipeline.ScenarioCreateFailure | src/writer/mod.rs:18-28 | under the schedule `Schedule([false, true], [], [true], [], [])` (the task processor sees the writer's quit at its first entry, the reader sees the task-quit signal at its second), for an output that cannot be created: the writer quits and writes nothing; the task processor stops through the quit chain without `End`; the reader stops; only the writer's message is reported. Other timings can add a failed send's message |

## Left out

- Threads, spawning, channel capacities, backpressure and the timing of the non-blocking polls: each poll is an oracle. The schedule of a composed run is left free, so some combinations it allows cannot happen in a real run.
- Joining the threads (`join().unwrap()`): the only panic modelled is the task processor's. It is the outcome `Aborted`.
- Loading the configuration (`load_conf`, `parse_conf`, YAML): foreign library and file I/O. `main` never calls `Config::validate`, so `Pipeline.Fix` does not require a valid configuration. A configuration with equal input and output files is not rejected before the pipeline starts.
- `shellexpand::tilde`, opening, creating and reading real files: the open and create errors are inputs. The file's lines are a sequence of line reads. Error details are strings passed in.
- `Path::exists`: the set `existing`.
- Trailing `/` and `/.` normalisation by `Path`: `ProcessedPath` requires `Normalised(path)`. So `Pipeline.Fix` requires every entry to be normalised. Comments and empty lines are unconstrained.
- Windows separators: only `/` separates segments.
- Byte-order-mark stripping: the code does not implement it.
- Byte lengths: the source cuts `ext_len` bytes. The model cuts `|ext| + 1` characters. The cut always removes a suffix made of `.` and the extension, so both remove the same text.
- The formatting of printed lines: the statistics output is a sequence of `PathLine` and `AttentionHeader(count)`. Standard error is a sequence of lines.
- `BufWriter`: it may write only part of a line and return the count, which the source ignores. Buffering is not modelled, and neither is the panic of `flush().unwrap()` after a successful loop. A failing write is an oracle `writeFails`; index 0 is the marker line.
- `TaskProcessor.ProcessTask`: the closed task channel (`recv().unwrap()` panicking) is the exit `Closed` and sends nothing more. After the panic `main` panics too and the process exits. So in an `Aborted` run the `printed` and `write` fields do not describe the real output: the statistics and writer threads may be cut off at any point.

## Findings

| source | as written | input that shows it | evidently intended | confidence | as-written member | corrected member |
|---|---|---|---|---|---|---|
| src/task_processor/mod.rs:16 | `task_rx.recv().unwrap()` panics once the task channel closes. The reader closes it without a sentinel when it returns an open or read error. `main`'s `join().unwrap()` then panics, so the reader's error message is never reported. | an input file that cannot be opened (`openError = Some(_)`), under any schedule | end the loop when the channel closes, as on the sentinel, so that `main` reports the reader's error together with the others | medium, not executed | Pipeline.OpenFailureAborts | Pipeline.CorrectedReportsReaderFailure |

`TaskProcessor.RunCorrected` is the corrected loop. `Pipeline.FixCorrected` composes the stages with it. `Pipeline.CorrectedReportsReaderFailure` proves that this composition agrees with the as-written one whenever the task processor does not meet the closed channel. That covers every scenario above.
