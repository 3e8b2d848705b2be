/** How `main` combines the four stage results once every thread has been
    joined: any error makes the run a failure, and the messages are reported
    on standard error in stage order (reader, task processor, statistics,
    writer) under a fixed header. `main` itself always returns `Ok`. */
module App {
  import opened Common

  const FailureHeader: string := "App failed with error(s):"

  /** The messages of the failed outcomes, in order. */
  function Messages(results: seq<Outcome>): (r: seq<string>)
    ensures |r| <= |results|
  {
    if results == [] then []
    else (if results[0].Err? then [results[0].message] else []) + Messages(results[1..])
  }

  predicate AnyError(results: seq<Outcome>)
  {
    exists j :: 0 <= j < |results| && results[j].Err?
  }

  /** The lines written to standard error: nothing on success, otherwise an
      empty line, the header and one line per message. */
  function ErrorReport(results: seq<Outcome>): seq<string>
  {
    if AnyError(results) then ["", FailureHeader] + Messages(results) else []
  }

  /** The aggregation block of `main`: its four checks, then the report. */
  method ReportErrors(reader: Outcome, taskProcessor: Outcome, stats: Outcome, writer: Outcome)
    returns (isError: bool, stderr: seq<string>, result: Outcome)
    ensures isError <==> AnyError([reader, taskProcessor, stats, writer])
    ensures stderr == ErrorReport([reader, taskProcessor, stats, writer])
    ensures result == Ok
  {
    var messages;
    isError, messages := CollectErrors(reader, taskProcessor, stats, writer);
    MessagesEmptyIff([reader, taskProcessor, stats, writer]);
    stderr := [];
    if isError {
      stderr := PrintErrors(messages);
    }
    result := Ok;
  }

  /** The four checks of `main`, each recording the failure of one stage. */
  method CollectErrors(reader: Outcome, taskProcessor: Outcome, stats: Outcome, writer: Outcome)
    returns (isError: bool, messages: seq<string>)
    ensures messages == Messages([reader, taskProcessor, stats, writer])
    ensures isError <==> messages != []
  {
    isError := false;
    messages := [];
    if reader.Err? {
      isError := true;
      messages := messages + [reader.message];
    }
    if taskProcessor.Err? {
      isError := true;
      messages := messages + [taskProcessor.message];
    }
    if stats.Err? {
      isError := true;
      messages := messages + [stats.message];
    }
    if writer.Err? {
      isError := true;
      messages := messages + [writer.message];
    }
    MessagesOfFour(reader, taskProcessor, stats, writer);
  }

  /** The `eprintln!` calls of a failed run: an empty line, the header, then
      every message in order. */
  method PrintErrors(messages: seq<string>) returns (stderr: seq<string>)
    ensures stderr == ["", FailureHeader] + messages
  {
    stderr := ["", FailureHeader];
    for j := 0 to |messages|
      invariant stderr == ["", FailureHeader] + messages[..j]
    {
      assert messages[..j + 1] == messages[..j] + [messages[j]];
      stderr := stderr + [messages[j]];
    }
    assert messages[..|messages|] == messages;
  }

  lemma MessagesOne(o: Outcome)
    ensures Messages([o]) == if o.Err? then [o.message] else []
  {
    assert [o][1..] == [];
  }

  /** The four checks collect the messages of exactly the failed stages, in
      stage order. */
  lemma MessagesOfFour(reader: Outcome, taskProcessor: Outcome, stats: Outcome, writer: Outcome)
    ensures Messages([reader, taskProcessor, stats, writer]) ==
      (if reader.Err? then [reader.message] else []) +
      (if taskProcessor.Err? then [taskProcessor.message] else []) +
      (if stats.Err? then [stats.message] else []) +
      (if writer.Err? then [writer.message] else [])
  {
    assert [reader, taskProcessor, stats, writer] == [reader] + ([taskProcessor] + ([stats] + [writer]));
    MessagesOrder([stats], [writer]);
    MessagesOrder([taskProcessor], [stats] + [writer]);
    MessagesOrder([reader], [taskProcessor] + ([stats] + [writer]));
    MessagesOne(reader);
    MessagesOne(taskProcessor);
    MessagesOne(stats);
    MessagesOne(writer);
  }

  /** No message is collected exactly when no stage failed. */
  lemma {:induction false} MessagesEmptyIff(results: seq<Outcome>)
    ensures Messages(results) == [] <==> !AnyError(results)
  {
    if results != [] {
      MessagesEmptyIff(results[1..]);
      if AnyError(results[1..]) {
        var j :| 0 <= j < |results[1..]| && results[1..][j].Err?;
        assert results[j + 1].Err?;
      }
      if AnyError(results) && !results[0].Err? {
        var j :| 0 <= j < |results| && results[j].Err?;
        assert results[1..][j - 1].Err?;
      }
    }
  }

  /** Messages keep the order of their stages: the message of a failed stage
      comes after those of every failed stage before it. */
  lemma {:induction false} MessagesOrder(a: seq<Outcome>, b: seq<Outcome>)
    ensures Messages(a + b) == Messages(a) + Messages(b)
  {
    if a != [] {
      assert (a + b)[0] == a[0] && (a + b)[1..] == a[1..] + b;
      MessagesOrder(a[1..], b);
      AppendAssoc(if a[0].Err? then [a[0].message] else [], Messages(a[1..]), Messages(b));
    } else {
      assert a + b == b;
    }
  }

  /** An empty report means every stage succeeded; a report that is not
      empty carries at least one message after its header. */
  lemma ReportIffError(results: seq<Outcome>)
    ensures ErrorReport(results) == [] <==> forall j :: 0 <= j < |results| ==> results[j] == Ok
    ensures ErrorReport(results) != [] ==> |ErrorReport(results)| >= 3
  {
    MessagesEmptyIff(results);
  }
}
