/** The task-processor stage `process_task`: for each received playlist entry
    it checks whether the path exists, otherwise substitutes the extension,
    reports missing paths to the statistics stage and forwards the resulting
    path to the writer, until the empty sentinel arrives or the writer asks to
    quit.

    The task channel is the sequence `received`; the filesystem is the set
    `existing` of paths that exist; the writer-quit signal and the closing of
    the two outgoing channels are oracles polled once per entry (index `i`). */
module TaskProcessor {
  import opened Common
  import opened PathRepair
  import opened Stats

  /** How the loop of `process_task` ended. `Closed` is the task channel
      running dry without a sentinel, where the source panics on `unwrap`. */
  datatype Exit = Drained | WriterQuit | Failed(message: string) | Closed

  /** What one run sends on its channels and how it ends. */
  datatype TaskRun = TaskRun(stats: seq<Stat>, toWriter: seq<string>, taskQuit: bool, exit: Exit)

  const StatSendFailure: string := "failed to send stat: " + ClosedChannel
  const WriterSendFailure: string := "failed to send the processed path to the writer: " + ClosedChannel

  /** Every received entry is a path on which the extension rules apply. */
  predicate AllNormalised(received: seq<string>)
  {
    forall j :: 0 <= j < |received| ==> Normalised(received[j])
  }

  /** The path forwarded for one entry: itself when it exists, else the
      extension-repaired path. */
  function Resolve(path: string, newExt: string, existing: set<string>): string
    requires Normalised(path)
  {
    if path in existing then path else ProcessedPath(path, newExt)
  }

  /** The events one entry produces, in the order they are sent. */
  function EntryStats(path: string, newExt: string, existing: set<string>): seq<Stat>
    requires Normalised(path)
  {
    var processed := Resolve(path, newExt, existing);
    (if path in existing then [] else [OriginalPathNotFound(path)]) +
      (if processed in existing then [] else [SubstitutionNotFound(processed)])
  }

  /** The run from entry `i` on; this is the reference the loop is proved against. */
  function RunFrom(newExt: string, received: seq<string>, existing: set<string>,
                   writerQuit: seq<bool>, statsClosed: seq<bool>, writerClosed: seq<bool>, i: nat): TaskRun
    requires i <= |received| && AllNormalised(received)
    decreases |received| - i
  {
    if i == |received| then TaskRun([], [], false, Closed)
    else if received[i] == "" then
      if Pending(writerQuit, i) then TaskRun([], [], false, Drained)
      else TaskRun([End], [""], false, Drained)
    else
      var events := EntryStats(received[i], newExt, existing);
      var processed := Resolve(received[i], newExt, existing);
      if (received[i] !in existing || processed !in existing) && Pending(statsClosed, i) then TaskRun([], [], false, Failed(StatSendFailure))
      else if Pending(writerQuit, i) then TaskRun(events, [], true, WriterQuit)
      else if Pending(writerClosed, i) then TaskRun(events, [], false, Failed(WriterSendFailure))
      else
        var rest := RunFrom(newExt, received, existing, writerQuit, statsClosed, writerClosed, i + 1);
        TaskRun(events + rest.stats, [processed] + rest.toWriter, rest.taskQuit, rest.exit)
  }

  /** The whole run of `process_task`. */
  function Run(newExt: string, received: seq<string>, existing: set<string>,
               writerQuit: seq<bool>, statsClosed: seq<bool>, writerClosed: seq<bool>): TaskRun
    requires AllNormalised(received)
  {
    RunFrom(newExt, received, existing, writerQuit, statsClosed, writerClosed, 0)
  }

  /** `process_task` with its `loop`: the messages it sends are those of `Run`. */
  method ProcessTask(newExt: string, received: seq<string>, existing: set<string>,
                     writerQuit: seq<bool>, statsClosed: seq<bool>, writerClosed: seq<bool>)
    returns (run: TaskRun)
    requires AllNormalised(received)
    ensures run == Run(newExt, received, existing, writerQuit, statsClosed, writerClosed)
  {
    ghost var total := Run(newExt, received, existing, writerQuit, statsClosed, writerClosed);
    var stats: seq<Stat> := [];
    var toWriter: seq<string> := [];
    var taskQuit := false;
    var i := 0;
    while true
      invariant i <= |received|
      invariant var rest := RunFrom(newExt, received, existing, writerQuit, statsClosed, writerClosed, i);
        total == TaskRun(stats + rest.stats, toWriter + rest.toWriter, rest.taskQuit, rest.exit)
      decreases |received| - i
    {
      if i == |received| {
        // `task_rx.recv().unwrap()` panics on the closed channel
        return TaskRun(stats, toWriter, false, Closed);
      }
      var path := received[i];
      if path == "" {
        break;
      }
      ghost var sent, forwarded := stats, toWriter;
      ghost var events := EntryStats(path, newExt, existing);
      ghost var rest := RunFrom(newExt, received, existing, writerQuit, statsClosed, writerClosed, i + 1);
      var found := path in existing;
      var processed: string;
      if found {
        processed := path;
      } else {
        var result := ProcessedPath(path, newExt);
        if Pending(statsClosed, i) {
          return TaskRun(stats, toWriter, false, Failed(StatSendFailure));
        }
        stats := stats + [OriginalPathNotFound(path)];
        processed := result;
      }
      if processed !in existing {
        if Pending(statsClosed, i) {
          return TaskRun(stats, toWriter, false, Failed(StatSendFailure));
        }
        stats := stats + [SubstitutionNotFound(processed)];
      }
      assert processed == Resolve(path, newExt, existing) && stats == sent + events;
      if Pending(writerQuit, i) {
        taskQuit := true;
        break;
      }
      if Pending(writerClosed, i) {
        return TaskRun(stats, toWriter, false, Failed(WriterSendFailure));
      }
      toWriter := toWriter + [processed];
      AppendAssoc(sent, events, rest.stats);
      AppendAssoc(forwarded, [processed], rest.toWriter);
      i := i + 1;
    }
    if !Pending(writerQuit, i) {
      // `end_txes`, whose send failures are ignored
      stats := stats + [End];
      toWriter := toWriter + [""];
    }
    run := TaskRun(stats, toWriter, taskQuit, if taskQuit then WriterQuit else Drained);
  }

  /** The paths forwarded for a run of entries, one per entry, in order. */
  function ResolveAll(paths: seq<string>, newExt: string, existing: set<string>): (r: seq<string>)
    requires AllNormalised(paths)
    ensures |r| == |paths|
  {
    if paths == [] then [] else [Resolve(paths[0], newExt, existing)] + ResolveAll(paths[1..], newExt, existing)
  }

  /** The events of a run of entries, entry after entry. */
  function StatsOf(paths: seq<string>, newExt: string, existing: set<string>): seq<Stat>
    requires AllNormalised(paths)
  {
    if paths == [] then [] else EntryStats(paths[0], newExt, existing) + StatsOf(paths[1..], newExt, existing)
  }

  /** Entry `k` meets no quit request and no closed channel. */
  predicate Unhindered(writerQuit: seq<bool>, statsClosed: seq<bool>, writerClosed: seq<bool>, k: nat)
  {
    !Pending(writerQuit, k) && !Pending(statsClosed, k) && !Pending(writerClosed, k)
  }

  /** An entry whose path exists is forwarded unchanged and reports nothing. */
  lemma ExistingForwardedUnchanged(path: string, newExt: string, existing: set<string>)
    requires Normalised(path) && path in existing
    ensures Resolve(path, newExt, existing) == path
    ensures EntryStats(path, newExt, existing) == []
  {
  }

  /** What a single entry reports: `OriginalPathNotFound` for exactly the
      missing original, `SubstitutionNotFound` for exactly a forwarded path
      that does not exist, the former first, and never `End`. */
  lemma EntryStatsSpec(path: string, newExt: string, existing: set<string>, q: string)
    requires Normalised(path)
    ensures var events := EntryStats(path, newExt, existing);
      var processed := Resolve(path, newExt, existing);
      (OriginalPathNotFound(q) in events <==> q == path && path !in existing) &&
      (SubstitutionNotFound(q) in events <==> q == processed && processed !in existing) &&
      End !in events && |events| <= 2 &&
      (|events| == 2 ==> events[0] == OriginalPathNotFound(path) && events[1] == SubstitutionNotFound(processed))
  {
    var processed := Resolve(path, newExt, existing);
    var first: seq<Stat> := if path in existing then [] else [OriginalPathNotFound(path)];
    var second: seq<Stat> := if processed in existing then [] else [SubstitutionNotFound(processed)];
    assert EntryStats(path, newExt, existing) == first + second;
    assert OriginalPathNotFound(q) in first + second <==> OriginalPathNotFound(q) in first;
    assert SubstitutionNotFound(q) in first + second <==> SubstitutionNotFound(q) in second;
  }

  /** A non-empty entry is never forwarded as the empty sentinel. */
  lemma ResolveNonEmpty(path: string, newExt: string, existing: set<string>)
    requires Normalised(path) && path != ""
    ensures Resolve(path, newExt, existing) != ""
  {
    if path !in existing {
      RepairKeepsStem(path, newExt);
      ExtensionShape(path);
      assert |path| - ExtLen(path) > 0;
    }
  }

  lemma {:induction false} ResolveAllAt(paths: seq<string>, newExt: string, existing: set<string>, j: nat)
    requires AllNormalised(paths) && j < |paths|
    ensures ResolveAll(paths, newExt, existing)[j] == Resolve(paths[j], newExt, existing)
  {
    if j > 0 {
      ResolveAllAt(paths[1..], newExt, existing, j - 1);
    }
  }

  lemma {:induction false} StatsOfNoEnd(paths: seq<string>, newExt: string, existing: set<string>)
    requires AllNormalised(paths)
    ensures End !in StatsOf(paths, newExt, existing)
  {
    if paths != [] {
      StatsOfNoEnd(paths[1..], newExt, existing);
      EntryStatsSpec(paths[0], newExt, existing, "");
    }
  }

  /** Entries that meet no quit, no closure and no sentinel contribute their
      events and forwarded paths in order, ahead of the rest of the run. */
  lemma {:induction false} RunPrefix(newExt: string, received: seq<string>, existing: set<string>,
                                     writerQuit: seq<bool>, statsClosed: seq<bool>, writerClosed: seq<bool>, i: nat, j: nat)
    requires i <= j <= |received| && AllNormalised(received)
    requires forall k :: i <= k < j ==> received[k] != "" && Unhindered(writerQuit, statsClosed, writerClosed, k)
    ensures var from := RunFrom(newExt, received, existing, writerQuit, statsClosed, writerClosed, i);
      var rest := RunFrom(newExt, received, existing, writerQuit, statsClosed, writerClosed, j);
      from == TaskRun(StatsOf(received[i..j], newExt, existing) + rest.stats,
                      ResolveAll(received[i..j], newExt, existing) + rest.toWriter, rest.taskQuit, rest.exit)
    decreases j - i
  {
    assert AllNormalised(received[i..j]);
    if i < j {
      RunPrefix(newExt, received, existing, writerQuit, statsClosed, writerClosed, i + 1, j);
      var rest := RunFrom(newExt, received, existing, writerQuit, statsClosed, writerClosed, j);
      assert received[i..j][0] == received[i] && received[i..j][1..] == received[i + 1..j];
      AppendAssoc(EntryStats(received[i], newExt, existing), StatsOf(received[i + 1..j], newExt, existing), rest.stats);
      AppendAssoc([Resolve(received[i], newExt, existing)], ResolveAll(received[i + 1..j], newExt, existing), rest.toWriter);
    } else {
      assert received[i..j] == [];
    }
  }

  /** Normal termination: when the first empty message is at `k` and no earlier
      entry meets a quit request or a closed channel, every entry before `k` is
      forwarded in order, and `End` and the sentinel follow exactly when the
      writer-quit signal is not pending at loop exit. */
  lemma SentinelRun(newExt: string, received: seq<string>, existing: set<string>,
                    writerQuit: seq<bool>, statsClosed: seq<bool>, writerClosed: seq<bool>, k: nat)
    requires k < |received| && received[k] == "" && AllNormalised(received)
    requires forall j :: 0 <= j < k ==> received[j] != "" && Unhindered(writerQuit, statsClosed, writerClosed, j)
    ensures var run := Run(newExt, received, existing, writerQuit, statsClosed, writerClosed);
      var ended := !Pending(writerQuit, k);
      run.exit == Drained && !run.taskQuit &&
      run.stats == StatsOf(received[..k], newExt, existing) + (if ended then [End] else []) &&
      run.toWriter == ResolveAll(received[..k], newExt, existing) + (if ended then [""] else []) &&
      (End in run.stats <==> ended)
  {
    RunPrefix(newExt, received, existing, writerQuit, statsClosed, writerClosed, 0, k);
    StatsOfNoEnd(received[..k], newExt, existing);
  }

  /** Early stop: when the writer-quit signal is first pending at entry `j`,
      that entry's events are still sent but it is not forwarded, `taskQuit`
      is raised, and neither `End` nor the sentinel is sent. */
  lemma WriterQuitRun(newExt: string, received: seq<string>, existing: set<string>,
                      writerQuit: seq<bool>, statsClosed: seq<bool>, writerClosed: seq<bool>, j: nat)
    requires j < |received| && received[j] != "" && AllNormalised(received)
    requires forall k :: 0 <= k < j ==> received[k] != "" && Unhindered(writerQuit, statsClosed, writerClosed, k)
    requires Pending(writerQuit, j) && !Pending(statsClosed, j)
    ensures var run := Run(newExt, received, existing, writerQuit, statsClosed, writerClosed);
      run.exit == WriterQuit && run.taskQuit &&
      run.stats == StatsOf(received[..j], newExt, existing) + EntryStats(received[j], newExt, existing) &&
      run.toWriter == ResolveAll(received[..j], newExt, existing) &&
      End !in run.stats && "" !in run.toWriter
  {
    RunPrefix(newExt, received, existing, writerQuit, statsClosed, writerClosed, 0, j);
    StatsOfNoEnd(received[..j], newExt, existing);
    EntryStatsSpec(received[j], newExt, existing, "");
    forall m | 0 <= m < j ensures ResolveAll(received[..j], newExt, existing)[m] != "" {
      ResolveAllAt(received[..j], newExt, existing, m);
      ResolveNonEmpty(received[m], newExt, existing);
    }
  }

  /** `End` and the sentinel are sent together, at most once, as the last
      messages on their channels, and only on the `Drained` exit; `taskQuit`
      is raised exactly on the writer-quit exit. */
  predicate EndShape(run: TaskRun)
  {
    (End in run.stats <==> "" in run.toWriter) &&
    (End in run.stats ==>
      run.exit == Drained &&
      run.stats[|run.stats| - 1] == End && End !in run.stats[..|run.stats| - 1] &&
      run.toWriter[|run.toWriter| - 1] == "" && "" !in run.toWriter[..|run.toWriter| - 1]) &&
    (run.taskQuit <==> run.exit == WriterQuit)
  }

  /** Entry events and a forwarded path that are not end markers keep the shape. */
  lemma EndShapePrepend(events: seq<Stat>, processed: string, rest: TaskRun)
    requires End !in events && processed != "" && EndShape(rest)
    ensures EndShape(TaskRun(events + rest.stats, [processed] + rest.toWriter, rest.taskQuit, rest.exit))
  {
    var stats := events + rest.stats;
    var toWriter := [processed] + rest.toWriter;
    if End in rest.stats {
      assert stats[..|stats| - 1] == events + rest.stats[..|rest.stats| - 1];
      assert toWriter[..|toWriter| - 1] == [processed] + rest.toWriter[..|rest.toWriter| - 1];
    }
  }

  /** Whatever the oracles, every run has the shape `EndShape` describes. */
  lemma {:induction false} EndMarkers(newExt: string, received: seq<string>, existing: set<string>,
                                      writerQuit: seq<bool>, statsClosed: seq<bool>, writerClosed: seq<bool>, i: nat)
    requires i <= |received| && AllNormalised(received)
    ensures EndShape(RunFrom(newExt, received, existing, writerQuit, statsClosed, writerClosed, i))
    decreases |received| - i
  {
    if i < |received| && received[i] != "" {
      var path := received[i];
      var processed := Resolve(path, newExt, existing);
      if !((path !in existing || processed !in existing) && Pending(statsClosed, i))
         && !Pending(writerQuit, i) && !Pending(writerClosed, i) {
        EntryStatsSpec(path, newExt, existing, "");
        ResolveNonEmpty(path, newExt, existing);
        EndMarkers(newExt, received, existing, writerQuit, statsClosed, writerClosed, i + 1);
        EndShapePrepend(EntryStats(path, newExt, existing), processed,
                        RunFrom(newExt, received, existing, writerQuit, statsClosed, writerClosed, i + 1));
      } else {
        EntryStatsSpec(path, newExt, existing, "");
      }
    }
  }

  /** The stream the task processor acts on when a closed task channel ends
      the loop like the sentinel: unchanged when it holds a sentinel. */
  function Terminated(received: seq<string>): (r: seq<string>)
    ensures "" in r
    ensures "" in received ==> r == received
  {
    if "" in received then received else received + [""]
  }

  /** `process_task` with the closing of the task channel treated as the end
      of the stream instead of a panic. */
  function RunCorrected(newExt: string, received: seq<string>, existing: set<string>,
                        writerQuit: seq<bool>, statsClosed: seq<bool>, writerClosed: seq<bool>): (run: TaskRun)
    requires AllNormalised(received)
    ensures !run.exit.Closed?
    ensures "" in received ==> run == Run(newExt, received, existing, writerQuit, statsClosed, writerClosed)
  {
    var stream := Terminated(received);
    assert AllNormalised(stream) by {
      forall j | 0 <= j < |stream| ensures Normalised(stream[j]) {
        if j < |received| {
          assert stream[j] == received[j];
        }
      }
    }
    NeverClosed(newExt, stream, existing, writerQuit, statsClosed, writerClosed, 0);
    Run(newExt, stream, existing, writerQuit, statsClosed, writerClosed)
  }

  /** A stream that holds a sentinel from `i` on never reaches the panic. */
  lemma {:induction false} NeverClosed(newExt: string, received: seq<string>, existing: set<string>,
                                       writerQuit: seq<bool>, statsClosed: seq<bool>, writerClosed: seq<bool>, i: nat)
    requires i <= |received| && AllNormalised(received) && "" in received[i..]
    ensures !RunFrom(newExt, received, existing, writerQuit, statsClosed, writerClosed, i).exit.Closed?
    decreases |received| - i
  {
    if i < |received| && received[i] != "" {
      assert received[i..] == [received[i]] + received[i + 1..];
      NeverClosed(newExt, received, existing, writerQuit, statsClosed, writerClosed, i + 1);
    }
  }
}
