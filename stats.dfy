/** The statistics stage `process_stats`: it prints each missing original path
    as it arrives, buffers the unresolved substitutions, and prints them under
    a header once the task processor sends `End`. */
module Stats {
  import opened Common

  /** `Stat`, the events the task processor sends. */
  datatype Stat = OriginalPathNotFound(path: string) | SubstitutionNotFound(path: string) | End

  /** One printed line: a path, or the summary header
      "Attention: the following <count> substituted paths don't exist."
      (preceded by an empty line), modelled by its count. */
  datatype Printed = PathLine(path: string) | AttentionHeader(count: nat)

  /** Index of the first `End`, or the length when the channel closes first. */
  function FirstEnd(events: seq<Stat>): (k: nat)
    ensures k <= |events|
    ensures forall j :: 0 <= j < k ==> events[j] != End
    ensures k < |events| ==> events[k] == End
  {
    if events == [] then 0
    else if events[0] == End then 0
    else 1 + FirstEnd(events[1..])
  }

  /** Paths of the `OriginalPathNotFound` events, in arrival order. */
  function Originals(events: seq<Stat>): (r: seq<string>)
    ensures |r| <= |events|
  {
    if events == [] then []
    else (if events[0].OriginalPathNotFound? then [events[0].path] else []) + Originals(events[1..])
  }

  /** Paths of the `SubstitutionNotFound` events, in arrival order. */
  function Substitutions(events: seq<Stat>): (r: seq<string>)
    ensures |r| <= |events|
  {
    if events == [] then []
    else (if events[0].SubstitutionNotFound? then [events[0].path] else []) + Substitutions(events[1..])
  }

  /** Each path printed on its own line. */
  function PathLines(paths: seq<string>): (r: seq<Printed>)
    ensures |r| == |paths|
  {
    if paths == [] then [] else [PathLine(paths[0])] + PathLines(paths[1..])
  }

  lemma {:induction false} PathLinesAt(paths: seq<string>)
    ensures forall j :: 0 <= j < |paths| ==> PathLines(paths)[j] == PathLine(paths[j])
  {
    if paths != [] {
      PathLinesAt(paths[1..]);
    }
  }

  lemma {:induction false} PathLinesAppend(a: seq<string>, b: seq<string>)
    ensures PathLines(a + b) == PathLines(a) + PathLines(b)
  {
    if a != [] {
      assert (a + b)[1..] == a[1..] + b;
      PathLinesAppend(a[1..], b);
    } else {
      assert a + b == b;
    }
  }

  lemma PathLinesSnoc(paths: seq<string>, j: nat)
    requires j < |paths|
    ensures PathLines(paths[..j + 1]) == PathLines(paths[..j]) + [PathLine(paths[j])]
  {
    assert paths[..j + 1] == paths[..j] + [paths[j]];
    PathLinesAppend(paths[..j], [paths[j]]);
  }

  /** What `process_stats` prints for the events its channel delivers: the
      missing originals before the first `End`, then, only when an `End`
      arrived, the summary of the unresolved substitutions if there are any. */
  function StatsOutput(events: seq<Stat>): seq<Printed>
  {
    var k := FirstEnd(events);
    var missing := Substitutions(events[..k]);
    PathLines(Originals(events[..k])) + (if k < |events| then Summary(missing) else [])
  }

  /** The summary block: nothing when every substitution was found, otherwise
      a header with the number of unresolved substitutions and each of them. */
  function Summary(missing: seq<string>): seq<Printed>
  {
    if missing == [] then [] else [AttentionHeader(|missing|)] + PathLines(missing)
  }

  lemma {:induction false} OriginalsAppend(a: seq<Stat>, b: seq<Stat>)
    ensures Originals(a + b) == Originals(a) + Originals(b)
  {
    if a != [] {
      assert (a + b)[0] == a[0] && (a + b)[1..] == a[1..] + b;
      OriginalsAppend(a[1..], b);
    } else {
      assert a + b == b;
    }
  }

  lemma {:induction false} SubstitutionsAppend(a: seq<Stat>, b: seq<Stat>)
    ensures Substitutions(a + b) == Substitutions(a) + Substitutions(b)
  {
    if a != [] {
      assert (a + b)[0] == a[0] && (a + b)[1..] == a[1..] + b;
      SubstitutionsAppend(a[1..], b);
    } else {
      assert a + b == b;
    }
  }

  /** How one event that is not `End` extends what is printed and buffered. */
  lemma StepAppend(before: seq<Stat>, stat: Stat)
    requires stat != End
    ensures stat.OriginalPathNotFound? ==>
      PathLines(Originals(before + [stat])) == PathLines(Originals(before)) + [PathLine(stat.path)] &&
      Substitutions(before + [stat]) == Substitutions(before)
    ensures stat.SubstitutionNotFound? ==>
      PathLines(Originals(before + [stat])) == PathLines(Originals(before)) &&
      Substitutions(before + [stat]) == Substitutions(before) + [stat.path]
  {
    OriginalsAppend(before, [stat]);
    SubstitutionsAppend(before, [stat]);
    PathLinesAppend(Originals(before), Originals([stat]));
  }

  lemma OutputWithoutEnd(events: seq<Stat>)
    requires forall j :: 0 <= j < |events| ==> events[j] != End
    ensures StatsOutput(events) == PathLines(Originals(events))
  {
    assert FirstEnd(events) == |events|;
    assert events[..|events|] == events;
  }

  lemma OutputAtFirstEnd(events: seq<Stat>, i: nat)
    requires i < |events| && events[i] == End
    requires forall j :: 0 <= j < i ==> events[j] != End
    ensures StatsOutput(events) == PathLines(Originals(events[..i])) + Summary(Substitutions(events[..i]))
  {
    assert FirstEnd(events) == i;
  }

  /** The block after the loop of `process_stats` that prints the buffered
      substitutions when there are any. */
  method PrintSummary(summary: seq<string>) returns (printed: seq<Printed>)
    ensures printed == Summary(summary)
  {
    printed := [];
    if summary != [] {
      printed := [AttentionHeader(|summary|)];
      for j := 0 to |summary|
        invariant printed == [AttentionHeader(|summary|)] + PathLines(summary[..j])
      {
        PathLinesSnoc(summary, j);
        printed := printed + [PathLine(summary[j])];
      }
      assert summary[..|summary|] == summary;
    }
  }

  /** `process_stats`: receives events until `End` or closure, printing
      missing originals at once and buffering unresolved substitutions; it
      always returns `Ok`. */
  method ProcessStats(events: seq<Stat>) returns (printed: seq<Printed>, result: Outcome)
    ensures printed == StatsOutput(events)
    ensures result == Ok
  {
    var summary: seq<string> := [];
    printed := [];
    var i := 0;
    while true
      invariant i <= |events|
      invariant forall j :: 0 <= j < i ==> events[j] != End
      invariant summary == Substitutions(events[..i])
      invariant printed == PathLines(Originals(events[..i]))
      decreases |events| - i
    {
      if i == |events| {
        OutputWithoutEnd(events);
        assert events[..i] == events;
        return printed, Ok;
      }
      var stat := events[i];
      if stat == End {
        break;
      }
      StepAppend(events[..i], stat);
      assert events[..i + 1] == events[..i] + [stat];
      match stat {
        case OriginalPathNotFound(path) =>
          printed := printed + [PathLine(path)];
        case SubstitutionNotFound(path) =>
          summary := summary + [path];
      }
      i := i + 1;
    }
    var summaryLines := PrintSummary(summary);
    printed := printed + summaryLines;
    OutputAtFirstEnd(events, i);
    result := Ok;
  }

  /** Events after the first `End` are never consumed. */
  lemma {:induction false} AfterEndIgnored(before: seq<Stat>, after: seq<Stat>)
    requires End !in before
    ensures StatsOutput(before + [End] + after) == StatsOutput(before + [End])
  {
    FirstEndOf(before, [End] + after);
    FirstEndOf(before, [End]);
    assert before + [End] + after == before + ([End] + after);
    assert (before + ([End] + after))[..|before|] == before;
    assert (before + [End])[..|before|] == before;
  }

  lemma {:induction false} FirstEndOf(before: seq<Stat>, rest: seq<Stat>)
    requires End !in before && rest != [] && rest[0] == End
    ensures FirstEnd(before + rest) == |before|
  {
    if before != [] {
      assert (before + rest)[1..] == before[1..] + rest;
      FirstEndOf(before[1..], rest);
    }
  }

  /** A channel closed before `End`: the missing originals are printed and no
      summary is. */
  lemma ClosedPrintsNoSummary(events: seq<Stat>)
    requires End !in events
    ensures StatsOutput(events) == PathLines(Originals(events))
    ensures forall j :: 0 <= j < |StatsOutput(events)| ==> StatsOutput(events)[j].PathLine?
  {
    OutputWithoutEnd(events);
    PathLinesAt(Originals(events));
  }

  /** What is printed once `End` arrives, whatever follows it. */
  lemma OutputAfterEnd(before: seq<Stat>, after: seq<Stat>)
    requires End !in before
    ensures StatsOutput(before + [End] + after) == PathLines(Originals(before)) + Summary(Substitutions(before))
  {
    AfterEndIgnored(before, after);
    FirstEndOf(before, [End]);
    assert (before + [End])[..|before|] == before;
  }

  /** After `End`: the missing originals in arrival order, then, if any
      substitution was unresolved, a header whose count is the number of them
      and those paths in arrival order. */
  lemma SummaryAfterEnd(before: seq<Stat>, after: seq<Stat>)
    requires End !in before
    ensures var out := StatsOutput(before + [End] + after);
      var originals := Originals(before);
      var missing := Substitutions(before);
      |out| >= |originals| && out[..|originals|] == PathLines(originals) &&
      (missing == [] <==> |out| == |originals|) &&
      (missing != [] ==>
        |out| == |originals| + 1 + |missing| && out[|originals|] == AttentionHeader(|missing|) &&
        out[|originals| + 1..] == PathLines(missing))
  {
    OutputAfterEnd(before, after);
    var head := PathLines(Originals(before));
    var tail := Summary(Substitutions(before));
    assert (head + tail)[..|head|] == head;
    assert (head + tail)[|head|..] == tail;
  }
}
