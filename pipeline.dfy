/** The four stages joined as `main` joins them: the reader's messages are the
    task processor's input, whose events feed the statistics stage and whose
    forwarded paths feed the writer; `main` then reports the four results.

    Thread timing is not modelled: the moments at which a stage sees a quit
    signal or a closed channel form a `Schedule`, left free, and everything
    outside the program (the input file, the filesystem, the output file) is
    an `Environment`. */
module Pipeline {
  import opened Common
  import opened PathRepair
  import opened Stats
  import opened TaskProcessor
  import opened Reader
  import opened Writer
  import opened Conf
  import opened App

  datatype Schedule = Schedule(taskQuit: seq<bool>, taskClosed: seq<bool>, writerQuit: seq<bool>,
                               statsClosed: seq<bool>, writerClosed: seq<bool>)

  /** Nothing is ever pending and no channel closes early. */
  const Calm: Schedule := Schedule([], [], [], [], [])

  datatype Environment = Environment(openError: Option<string>, lines: seq<LineRead>, existing: set<string>,
                                     createError: Option<string>, writeFails: seq<bool>, ioError: string)

  /** What `main` ends with: the report of the four results, or a panic of
      `join().unwrap()` because the task-processor thread panicked. */
  datatype Report = Reported(isError: bool, stderr: seq<string>) | Aborted

  datatype FixRun = FixRun(read: ReadRun, task: TaskRun, printed: seq<Printed>, write: WriteRun, report: Report)

  /** Every entry read is a path on which the extension rules apply; comments
      and empty lines, which the reader skips, may be anything. */
  predicate LinesNormalised(lines: seq<LineRead>)
  {
    forall k :: 0 <= k < |lines| ==> lines[k].Line? && IsEntry(lines[k].text) ==> Normalised(lines[k].text)
  }

  /** The result `process_task` returns for each way its loop ends. */
  function TaskOutcome(exit: Exit): (r: Outcome)
    requires !exit.Closed?
    ensures r.Err? <==> exit.Failed?
  {
    match exit
    case Failed(message) => Err(message)
    case _ => Ok
  }

  lemma {:induction false} SentNormalised(lines: seq<LineRead>, taskQuit: seq<bool>, taskClosed: seq<bool>, i: nat)
    requires i <= |lines| && LinesNormalised(lines)
    ensures AllNormalised(ReadFrom(lines, taskQuit, taskClosed, i).sent)
    decreases |lines| - i
  {
    if i < |lines| && lines[i].Line? {
      SentNormalised(lines, taskQuit, taskClosed, i + 1);
      var rest := ReadFrom(lines, taskQuit, taskClosed, i + 1);
      var sent := ReadFrom(lines, taskQuit, taskClosed, i).sent;
      if IsEntry(lines[i].text) && !Pending(taskQuit, i) && !Pending(taskClosed, i) {
        assert sent == [lines[i].text] + rest.sent;
        forall j | 0 <= j < |sent| ensures Normalised(sent[j]) {
          if j > 0 {
            assert sent[j] == rest.sent[j - 1];
          }
        }
      }
    }
  }

  /** Statistics, writer and report, given what the reader and the task
      processor did. */
  function Downstream(c: Config, env: Environment, read: ReadRun, task: TaskRun): FixRun
  {
    var printed := StatsOutput(task.stats);
    var write := Write(c.outputFile, env.createError, task.toWriter, env.writeFails, env.ioError);
    var report :=
      if task.exit.Closed? then Aborted
      else
        var results := [read.result, TaskOutcome(task.exit), Ok, write.result];
        Reported(AnyError(results), ErrorReport(results));
    FixRun(read, task, printed, write, report)
  }

  /** One run of the program as written, for a configuration that loaded. */
  function Fix(c: Config, env: Environment, sched: Schedule): FixRun
    requires LinesNormalised(env.lines)
  {
    var read := Read(c.inputFile, env.openError, env.lines, sched.taskQuit, sched.taskClosed);
    SentNormalised(env.lines, sched.taskQuit, sched.taskClosed, 0);
    var task := Run(c.newExt, read.sent, env.existing, sched.writerQuit, sched.statsClosed, sched.writerClosed);
    Downstream(c, env, read, task)
  }

  /** One run with a task processor that ends its loop when its channel
      closes, as it does on the sentinel. */
  function FixCorrected(c: Config, env: Environment, sched: Schedule): FixRun
    requires LinesNormalised(env.lines)
  {
    var read := Read(c.inputFile, env.openError, env.lines, sched.taskQuit, sched.taskClosed);
    SentNormalised(env.lines, sched.taskQuit, sched.taskClosed, 0);
    var task := RunCorrected(c.newExt, read.sent, env.existing, sched.writerQuit, sched.statsClosed, sched.writerClosed);
    Downstream(c, env, read, task)
  }

  /** Nothing goes wrong: the input opens and reads without error, the output
      is created and every write succeeds. */
  predicate Healthy(env: Environment)
  {
    env.openError.None? && env.createError.None? && env.writeFails == [] &&
    forall k :: 0 <= k < |env.lines| ==> env.lines[k].Line?
  }

  /** An entry forwarded for a playlist entry is itself a playlist entry. */
  lemma ResolveIsEntry(path: string, newExt: string, existing: set<string>)
    requires Normalised(path) && IsEntry(path)
    ensures IsEntry(Resolve(path, newExt, existing))
    ensures Resolve(path, newExt, existing)[0] == path[0]
  {
    ResolveNonEmpty(path, newExt, existing);
    if path !in existing {
      RepairKeepsStem(path, newExt);
      ExtensionShape(path);
      assert |path| - ExtLen(path) > 0;
    }
  }

  /** The stream the reader sends is read by the task processor up to its
      sentinel, and every forwarded path is an entry. */
  lemma ForwardedEntries(entries: seq<string>, newExt: string, existing: set<string>)
    requires AllNormalised(entries) && forall j :: 0 <= j < |entries| ==> IsEntry(entries[j])
    ensures forall j :: 0 <= j < |entries| ==> IsEntry(ResolveAll(entries, newExt, existing)[j])
  {
    forall j | 0 <= j < |entries| ensures IsEntry(ResolveAll(entries, newExt, existing)[j]) {
      ResolveAllAt(entries, newExt, existing, j);
      ResolveIsEntry(entries[j], newExt, existing);
    }
  }

  /** The reader's part of a calm run: every entry, then the sentinel. */
  lemma CalmRead(inputFile: string, lines: seq<LineRead>)
    requires LinesNormalised(lines) && forall k :: 0 <= k < |lines| ==> lines[k].Line?
    ensures Read(inputFile, None, lines, [], []) == ReadRun(Kept(lines) + [""], Ok)
    ensures AllNormalised(Kept(lines)) && AllNormalised(Kept(lines) + [""])
    ensures forall j :: 0 <= j < |Kept(lines)| ==> IsEntry(Kept(lines)[j])
  {
    var entries := Kept(lines);
    ReadAll(lines, [], []);
    var sent := entries + [""];
    SentNormalised(lines, [], [], 0);
    assert AllNormalised(entries) by {
      forall j | 0 <= j < |entries| ensures Normalised(entries[j]) {
        assert entries[j] == sent[j];
      }
    }
    KeptAreEntries(lines);
  }

  /** The task processor's part of a calm run. */
  lemma CalmTask(entries: seq<string>, newExt: string, existing: set<string>)
    requires AllNormalised(entries) && AllNormalised(entries + [""])
    requires forall j :: 0 <= j < |entries| ==> IsEntry(entries[j])
    ensures Run(newExt, entries + [""], existing, [], [], []) ==
      TaskRun(StatsOf(entries, newExt, existing) + [End], ResolveAll(entries, newExt, existing) + [""], false, Drained)
  {
    var sent := entries + [""];
    assert sent[..|entries|] == entries;
    SentinelRun(newExt, sent, existing, [], [], [], |entries|);
  }

  /** The statistics and writer part of a calm run. */
  lemma CalmDownstream(entries: seq<string>, newExt: string, existing: set<string>, outputFile: string, ioError: string)
    requires AllNormalised(entries)
    requires forall j :: 0 <= j < |entries| ==> IsEntry(entries[j])
    ensures var events := StatsOf(entries, newExt, existing);
      StatsOutput(events + [End]) == PathLines(Originals(events)) + Summary(Substitutions(events))
    ensures Write(outputFile, None, ResolveAll(entries, newExt, existing) + [""], [], ioError) ==
      WriteRun(Playlist(ResolveAll(entries, newExt, existing)), false, Ok)
  {
    StatsOfNoEnd(entries, newExt, existing);
    var events := StatsOf(entries, newExt, existing);
    FirstEndOf(events, [End]);
    assert (events + [End])[..|events|] == events;
    var resolved := ResolveAll(entries, newExt, existing);
    ForwardedEntries(entries, newExt, existing);
    var toWriter := resolved + [""];
    FirstEmptyOf(resolved);
    assert toWriter[..|resolved|] == resolved;
    WriteSucceeds(outputFile, None, toWriter, [], ioError);
  }

  /** End to end, with nothing failing and no quit: the output file is the
      marker line followed by one line per entry of the input, in input
      order, each the entry itself when it exists and its repaired path
      otherwise; the statistics are those of the entries followed by `End`;
      and `main` reports nothing. */
  lemma EndToEnd(c: Config, env: Environment)
    requires Healthy(env) && LinesNormalised(env.lines)
    ensures var run := Fix(c, env, Calm);
      var entries := Kept(env.lines);
      AllNormalised(entries) &&
      run.read == ReadRun(entries + [""], Ok) &&
      run.task.stats == StatsOf(entries, c.newExt, env.existing) + [End] &&
      run.task.toWriter == ResolveAll(entries, c.newExt, env.existing) + [""] &&
      run.printed == PathLines(Originals(StatsOf(entries, c.newExt, env.existing))) +
                     Summary(Substitutions(StatsOf(entries, c.newExt, env.existing))) &&
      run.write == WriteRun(Playlist(ResolveAll(entries, c.newExt, env.existing)), false, Ok) &&
      run.report == Reported(false, [])
  {
    var entries := Kept(env.lines);
    CalmRead(c.inputFile, env.lines);
    CalmTask(entries, c.newExt, env.existing);
    CalmDownstream(entries, c.newExt, env.existing, c.outputFile, env.ioError);
    MessagesEmptyIff([Ok, Ok, Ok, Ok]);
  }

  lemma {:induction false} FirstEmptyOf(paths: seq<string>)
    requires forall j :: 0 <= j < |paths| ==> IsEntry(paths[j])
    ensures FirstEmpty(paths + [""]) == |paths|
  {
    if paths != [] {
      assert (paths + [""])[1..] == paths[1..] + [""];
      FirstEmptyOf(paths[1..]);
    }
  }

  /** With nothing failing and no quit, every entry of the input that exists
      is written verbatim, at its own position among the entries, and every
      line of the output after the marker is an entry, never empty and never
      a comment. */
  lemma ExistingEntriesVerbatim(c: Config, env: Environment, j: nat)
    requires Healthy(env) && LinesNormalised(env.lines)
    requires j < |Kept(env.lines)|
    ensures var entries := Kept(env.lines);
      AllNormalised(entries) &&
      Fix(c, env, Calm).write.written == Playlist(ResolveAll(entries, c.newExt, env.existing)) &&
      IsEntry(ResolveAll(entries, c.newExt, env.existing)[j]) &&
      (entries[j] in env.existing ==> ResolveAll(entries, c.newExt, env.existing)[j] == entries[j])
  {
    EndToEnd(c, env);
    var entries := Kept(env.lines);
    KeptAreEntries(env.lines);
    ForwardedEntries(entries, c.newExt, env.existing);
    ResolveAllAt(entries, c.newExt, env.existing, j);
  }

  /** `main` never drops a failure it gets to report: the message of every
      stage that failed is on standard error, and the run counts as failed
      exactly when some stage failed. A run is aborted exactly when the task
      processor met the closed task channel. */
  lemma ReportComplete(c: Config, env: Environment, sched: Schedule)
    requires LinesNormalised(env.lines)
    ensures var run := Fix(c, env, sched);
      (run.report.Aborted? <==> run.task.exit.Closed?) &&
      (run.report.Reported? ==>
        (run.report.isError <==> run.read.result.Err? || run.task.exit.Failed? || run.write.result.Err?) &&
        (run.read.result.Err? ==> run.read.result.message in run.report.stderr) &&
        (run.task.exit.Failed? ==> run.task.exit.message in run.report.stderr) &&
        (run.write.result.Err? ==> run.write.result.message in run.report.stderr))
  {
    var run := Fix(c, env, sched);
    if run.report.Reported? {
      var results := [run.read.result, TaskOutcome(run.task.exit), Ok, run.write.result];
      MessagesOfFour(results[0], results[1], results[2], results[3]);
      assert results == [results[0], results[1], results[2], results[3]];
      MessagesEmptyIff(results);
      if results[0].Err? || results[1].Err? || results[3].Err? {
        assert AnyError(results) by {
          if results[0].Err? { assert results[0].Err?; }
          else if results[1].Err? { assert results[1].Err?; }
          else { assert results[3].Err?; }
        }
      } else {
        assert !AnyError(results) by {
          forall j | 0 <= j < 4 ensures results[j] == Ok {}
        }
      }
    }
  }

  /** Bug as written: when the input file cannot be opened, the reader sends
      nothing, the task processor panics on the closed channel and `main`
      aborts, so the reader's message is never reported. */
  lemma OpenFailureAborts(c: Config, env: Environment, sched: Schedule)
    requires LinesNormalised(env.lines) && env.openError.Some?
    ensures var run := Fix(c, env, sched);
      run.read == ReadRun([], Err(OpenFailure(c.inputFile, env.openError.value))) &&
      run.task.exit == Closed && run.report == Aborted
  {
  }

  /** The same for a line that cannot be decoded before any entry: only
      comments and empty lines come before it. */
  lemma ReadFailureAborts(c: Config, env: Environment, sched: Schedule, j: nat)
    requires LinesNormalised(env.lines) && env.openError.None?
    requires j < |env.lines| && env.lines[j].ReadError?
    requires forall k :: 0 <= k < j ==> env.lines[k].Line? && !IsEntry(env.lines[k].text)
    ensures var run := Fix(c, env, sched);
      run.read == ReadRun([], Err(ReadFailure(env.lines[j].detail))) &&
      run.task.exit == Closed && run.report == Aborted
  {
    ReadUntilError(env.lines, sched.taskQuit, sched.taskClosed, j);
    KeptNone(env.lines[..j]);
  }

  /** Comments and empty lines contribute no entry. */
  lemma {:induction false} KeptNone(lines: seq<LineRead>)
    requires forall k :: 0 <= k < |lines| ==> lines[k].Line? && !IsEntry(lines[k].text)
    ensures Kept(lines) == []
  {
    if lines != [] {
      KeptNone(lines[1..]);
    }
  }

  /** The two runs differ only where the task processor met the closed
      channel; with the correction every run is reported, and a reader that
      fails has its message on standard error. */
  lemma CorrectedReportsReaderFailure(c: Config, env: Environment, sched: Schedule)
    requires LinesNormalised(env.lines)
    ensures var run := FixCorrected(c, env, sched);
      run.report.Reported? &&
      (run.read.result.Err? ==> run.report.isError && run.read.result.message in run.report.stderr) &&
      (!Fix(c, env, sched).task.exit.Closed? ==> run == Fix(c, env, sched))
  {
    var run := FixCorrected(c, env, sched);
    var results := [run.read.result, TaskOutcome(run.task.exit), Ok, run.write.result];
    MessagesOfFour(results[0], results[1], results[2], results[3]);
    assert results == [results[0], results[1], results[2], results[3]];
    if run.read.result.Err? {
      assert AnyError(results) by { assert results[0].Err?; }
    }
    var asWritten := Fix(c, env, sched);
    if !asWritten.task.exit.Closed? && "" !in run.read.sent {
      SentNormalised(env.lines, sched.taskQuit, sched.taskClosed, 0);
      NoSentinelCloses(c.newExt, run.read.sent, env.existing, sched.writerQuit, sched.statsClosed, sched.writerClosed, 0);
    }
  }

  /** Without a sentinel the loop ends in every other way than `Closed`
      only before running dry. */
  lemma {:induction false} NoSentinelCloses(newExt: string, received: seq<string>, existing: set<string>,
                                            writerQuit: seq<bool>, statsClosed: seq<bool>, writerClosed: seq<bool>, i: nat)
    requires i <= |received| && AllNormalised(received) && "" !in received
    ensures var run := RunFrom(newExt, received, existing, writerQuit, statsClosed, writerClosed, i);
      var longer := RunFrom(newExt, received + [""], existing, writerQuit, statsClosed, writerClosed, i);
      AllNormalised(received + [""]) && (!run.exit.Closed? ==> longer == run)
    decreases |received| - i
  {
    assert AllNormalised(received + [""]) by {
      forall j | 0 <= j < |received| + 1 ensures Normalised((received + [""])[j]) {
        if j < |received| {
          assert (received + [""])[j] == received[j];
        }
      }
    }
    if i < |received| {
      assert (received + [""])[i] == received[i];
      NoSentinelCloses(newExt, received, existing, writerQuit, statsClosed, writerClosed, i + 1);
    }
  }

  lemma KeptRepaired()
    ensures Kept([Line("/m/a.mp3"), Line("# old music/"), Line(""), Line("/m/b.flac")]) == ["/m/a.mp3", "/m/b.flac"]
  {
    var lines := [Line("/m/a.mp3"), Line("# old music/"), Line(""), Line("/m/b.flac")];
    assert lines[1..][1..][1..][1..] == [];
    assert Kept(lines[1..][1..][1..]) == ["/m/b.flac"];
    assert Kept(lines[1..][1..]) == ["/m/b.flac"];
    assert Kept(lines[1..]) == ["/m/b.flac"];
  }

  lemma RepairedFlac(existing: set<string>)
    requires existing == {"/m/a.mp3", "/m/b.m4a"}
    ensures Normalised("/m/b.flac")
    ensures Resolve("/m/b.flac", ".m4a", existing) == "/m/b.m4a"
  {
    RepairOfSplit("/m/b.flac", "/m/b", "flac", ".m4a");
  }

  lemma ResolvedRepaired(existing: set<string>)
    requires existing == {"/m/a.mp3", "/m/b.m4a"}
    ensures AllNormalised(["/m/a.mp3", "/m/b.flac"])
    ensures ResolveAll(["/m/a.mp3", "/m/b.flac"], ".m4a", existing) == ["/m/a.mp3", "/m/b.m4a"]
  {
    RepairedFlac(existing);
    var entries := ["/m/a.mp3", "/m/b.flac"];
    assert Normalised("/m/a.mp3");
    assert entries[1..] == ["/m/b.flac"] && entries[1..][1..] == [];
    assert ResolveAll(["/m/b.flac"], ".m4a", existing) == ["/m/b.m4a"];
  }

  lemma EventsFlac(existing: set<string>)
    requires existing == {"/m/a.mp3", "/m/b.m4a"}
    ensures Normalised("/m/b.flac")
    ensures EntryStats("/m/b.flac", ".m4a", existing) == [OriginalPathNotFound("/m/b.flac")]
  {
    RepairedFlac(existing);
  }

  lemma EventsMp3(existing: set<string>)
    requires existing == {"/m/a.mp3", "/m/b.m4a"}
    ensures Normalised("/m/a.mp3")
    ensures EntryStats("/m/a.mp3", ".m4a", existing) == []
  {
    assert Normalised("/m/a.mp3");
    ExistingForwardedUnchanged("/m/a.mp3", ".m4a", existing);
  }

  lemma StatsRepaired(existing: set<string>)
    requires existing == {"/m/a.mp3", "/m/b.m4a"}
    ensures AllNormalised(["/m/a.mp3", "/m/b.flac"])
    ensures StatsOf(["/m/a.mp3", "/m/b.flac"], ".m4a", existing) == [OriginalPathNotFound("/m/b.flac")]
  {
    EventsFlac(existing);
    EventsMp3(existing);
    var entries := ["/m/a.mp3", "/m/b.flac"];
    assert entries[1..] == ["/m/b.flac"] && entries[1..][1..] == [];
    assert StatsOf(["/m/b.flac"], ".m4a", existing) == [OriginalPathNotFound("/m/b.flac")];
  }

  lemma OutputRepaired()
    ensures Playlist(["/m/a.mp3", "/m/b.m4a"]) == "#\r\n/m/a.mp3\r\n/m/b.m4a\r\n"
    ensures PathLines(Originals([OriginalPathNotFound("/m/b.flac")])) == [PathLine("/m/b.flac")]
    ensures Summary(Substitutions([OriginalPathNotFound("/m/b.flac")])) == []
  {
    var paths := ["/m/a.mp3", "/m/b.m4a"];
    assert paths[1..] == ["/m/b.m4a"] && paths[1..][1..] == [];
    var events := [OriginalPathNotFound("/m/b.flac")];
    assert events[1..] == [];
    assert Originals(events) == ["/m/b.flac"];
    assert ["/m/b.flac"][1..] == [];
  }

  lemma RunRepaired(c: Config, env: Environment)
    requires c.newExt == ".m4a" && Healthy(env) && LinesNormalised(env.lines)
    requires Kept(env.lines) == ["/m/a.mp3", "/m/b.flac"]
    requires env.existing == {"/m/a.mp3", "/m/b.m4a"}
    ensures var run := Fix(c, env, Calm);
      run.write.written == "#\r\n/m/a.mp3\r\n/m/b.m4a\r\n" &&
      run.task.stats == [OriginalPathNotFound("/m/b.flac"), End] &&
      run.printed == [PathLine("/m/b.flac")] &&
      run.report == Reported(false, [])
  {
    ResolvedRepaired(env.existing);
    StatsRepaired(env.existing);
    EndToEnd(c, env);
    OutputRepaired();
  }

  /** Scenario: an existing entry, a comment, an empty line and a missing
      `.flac` whose `.m4a` exists. */
  lemma ScenarioRepaired(c: Config, env: Environment)
    requires c.newExt == ".m4a" && Healthy(env)
    requires env.lines == [Line("/m/a.mp3"), Line("# old music/"), Line(""), Line("/m/b.flac")]
    requires env.existing == {"/m/a.mp3", "/m/b.m4a"}
    ensures LinesNormalised(env.lines)
    ensures var run := Fix(c, env, Calm);
      run.write.written == "#\r\n/m/a.mp3\r\n/m/b.m4a\r\n" &&
      run.task.stats == [OriginalPathNotFound("/m/b.flac"), End] &&
      run.printed == [PathLine("/m/b.flac")] &&
      run.report == Reported(false, [])
  {
    assert Normalised("/m/a.mp3") && Normalised("/m/b.flac");
    KeptRepaired();
    RunRepaired(c, env);
  }

  lemma RepairedWav(existing: set<string>)
    requires existing == {}
    ensures Normalised("/x/c.wav")
    ensures Resolve("/x/c.wav", ".m4a", existing) == "/x/c.m4a"
  {
    RepairOfSplit("/x/c.wav", "/x/c", "wav", ".m4a");
  }

  lemma ResolvedUnresolved(existing: set<string>)
    requires existing == {}
    ensures AllNormalised(["/x/c.wav"])
    ensures ResolveAll(["/x/c.wav"], ".m4a", existing) == ["/x/c.m4a"]
    ensures StatsOf(["/x/c.wav"], ".m4a", existing) == [OriginalPathNotFound("/x/c.wav"), SubstitutionNotFound("/x/c.m4a")]
  {
    RepairedWav(existing);
    assert ["/x/c.wav"][1..] == [];
    assert EntryStats("/x/c.wav", ".m4a", existing) == [OriginalPathNotFound("/x/c.wav"), SubstitutionNotFound("/x/c.m4a")];
  }

  lemma OutputUnresolved()
    ensures Playlist(["/x/c.m4a"]) == "#\r\n/x/c.m4a\r\n"
    ensures var events := [OriginalPathNotFound("/x/c.wav"), SubstitutionNotFound("/x/c.m4a")];
      PathLines(Originals(events)) + Summary(Substitutions(events)) ==
      [PathLine("/x/c.wav"), AttentionHeader(1), PathLine("/x/c.m4a")]
  {
    assert ["/x/c.m4a"][1..] == [];
    var events := [OriginalPathNotFound("/x/c.wav"), SubstitutionNotFound("/x/c.m4a")];
    assert events[1..] == [SubstitutionNotFound("/x/c.m4a")] && events[1..][1..] == [];
    assert Originals(events) == ["/x/c.wav"];
    assert Substitutions(events) == ["/x/c.m4a"];
    assert ["/x/c.wav"][1..] == [];
  }

  lemma RunUnresolved(c: Config, env: Environment)
    requires c.newExt == ".m4a" && Healthy(env) && LinesNormalised(env.lines)
    requires Kept(env.lines) == ["/x/c.wav"] && env.existing == {}
    ensures var run := Fix(c, env, Calm);
      run.write.written == "#\r\n/x/c.m4a\r\n" &&
      run.task.stats == [OriginalPathNotFound("/x/c.wav"), SubstitutionNotFound("/x/c.m4a"), End] &&
      run.printed == [PathLine("/x/c.wav"), AttentionHeader(1), PathLine("/x/c.m4a")] &&
      run.report == Reported(false, [])
  {
    ResolvedUnresolved(env.existing);
    EndToEnd(c, env);
    OutputUnresolved();
  }

  /** Scenario: a missing entry whose repaired path is missing too; the
      repaired path is still written. */
  lemma ScenarioUnresolved(c: Config, env: Environment)
    requires c.newExt == ".m4a" && Healthy(env)
    requires env.lines == [Line("/x/c.wav")] && env.existing == {}
    ensures LinesNormalised(env.lines)
    ensures var run := Fix(c, env, Calm);
      run.write.written == "#\r\n/x/c.m4a\r\n" &&
      run.task.stats == [OriginalPathNotFound("/x/c.wav"), SubstitutionNotFound("/x/c.m4a"), End] &&
      run.printed == [PathLine("/x/c.wav"), AttentionHeader(1), PathLine("/x/c.m4a")] &&
      run.report == Reported(false, [])
  {
    assert Normalised("/x/c.wav");
    assert env.lines[1..] == [];
    assert Kept(env.lines) == ["/x/c.wav"];
    RunUnresolved(c, env);
  }

  lemma ReadBeforeQuit(inputFile: string)
    ensures Read(inputFile, None, [Line("/m/a.mp3"), Line("/m/b.flac")], [false, true], []) == ReadRun(["/m/a.mp3"], Ok)
  {
    var lines := [Line("/m/a.mp3"), Line("/m/b.flac")];
    assert ReadFrom(lines, [false, true], [], 1) == ReadRun([], Ok);
  }

  lemma TaskAfterQuit(newExt: string, existing: set<string>)
    ensures AllNormalised(["/m/a.mp3"])
    ensures var task := Run(newExt, ["/m/a.mp3"], existing, [true], [], []);
      task.exit == WriterQuit && task.taskQuit && task.toWriter == [] && End !in task.stats
  {
    assert Normalised("/m/a.mp3");
    EntryStatsSpec("/m/a.mp3", newExt, existing, "");
  }

  lemma ReportWriterOnly(message: string)
    ensures var results := [Ok, Ok, Ok, Err(message)];
      AnyError(results) && ErrorReport(results) == ["", FailureHeader, message]
  {
    var results := [Ok, Ok, Ok, Err(message)];
    MessagesOfFour(Ok, Ok, Ok, Err(message));
    assert results[3].Err?;
  }

  /** Scenario: the output file cannot be created. The writer raises its quit
      signal and writes nothing; a task processor that sees it at its first
      entry sends that entry's events, raises the task-quit signal and sends
      no `End`; a reader that sees that before its second entry stops; and
      `main` reports exactly the writer's message. */
  lemma ScenarioCreateFailure(c: Config, env: Environment, detail: string)
    requires env.openError.None? && env.createError == Some(detail) && LinesNormalised(env.lines)
    requires env.lines == [Line("/m/a.mp3"), Line("/m/b.flac")]
    ensures var run := Fix(c, env, Schedule([false, true], [], [true], [], []));
      run.read == ReadRun(["/m/a.mp3"], Ok) &&
      run.write == WriteRun("", true, Err(CreateFailure(c.outputFile, detail))) &&
      run.task.taskQuit && run.task.exit == WriterQuit && End !in run.task.stats && run.task.toWriter == [] &&
      run.report == Reported(true, ["", FailureHeader, CreateFailure(c.outputFile, detail)])
  {
    ReadBeforeQuit(c.inputFile);
    TaskAfterQuit(c.newExt, env.existing);
    ReportWriterOnly(CreateFailure(c.outputFile, detail));
  }
}
