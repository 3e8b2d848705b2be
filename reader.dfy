/** The reader stage `read_entries`: it streams the input file's lines to the
    task processor, skipping empty lines and `#` comments, stops as soon as the
    task processor asks it to quit, and ends the stream with the empty
    sentinel (`end_task_tx`) only when it ran out of lines.

    The opened file is the sequence of line reads `lines`; the task-quit signal
    and the closing of the task channel are oracles polled at line index `i`. */
module Reader {
  import opened Common

  /** One item of `BufReader::lines`: a line, or a decoding error. */
  datatype LineRead = Line(text: string) | ReadError(detail: string)

  /** What the reader sends on the task channel and what it returns. */
  datatype ReadRun = ReadRun(sent: seq<string>, result: Outcome)

  const SendFailure: string := "failed to send the task to the task processor: " + ClosedChannel

  /** A line that becomes a playlist entry: neither empty nor a `#` comment. */
  predicate IsEntry(line: string)
  {
    line != "" && line[0] != '#'
  }

  function OpenFailure(inputFile: string, detail: string): string
  {
    "failed to open the input file '" + inputFile + "': " + detail
  }

  function ReadFailure(detail: string): string
  {
    "failed to read the input file: " + detail
  }

  /** The entries among the lines, in order (read errors contribute none). */
  function Kept(lines: seq<LineRead>): (r: seq<string>)
    ensures |r| <= |lines|
  {
    if lines == [] then []
    else (if lines[0].Line? && IsEntry(lines[0].text) then [lines[0].text] else []) + Kept(lines[1..])
  }

  /** The run from line `i` on; the loop is proved against it. */
  function ReadFrom(lines: seq<LineRead>, taskQuit: seq<bool>, taskClosed: seq<bool>, i: nat): ReadRun
    requires i <= |lines|
    decreases |lines| - i
  {
    if i == |lines| then
      ReadRun(if Pending(taskQuit, i) then [] else [""], Ok)
    else match lines[i]
      case ReadError(detail) => ReadRun([], Err(ReadFailure(detail)))
      case Line(text) =>
        if !IsEntry(text) then ReadFrom(lines, taskQuit, taskClosed, i + 1)
        else if Pending(taskQuit, i) then ReadRun([], Ok)
        else if Pending(taskClosed, i) then ReadRun([], Err(SendFailure))
        else
          var rest := ReadFrom(lines, taskQuit, taskClosed, i + 1);
          ReadRun([text] + rest.sent, rest.result)
  }

  /** The whole of `read_entries`; `openError` is the failure of `File::open`. */
  function Read(inputFile: string, openError: Option<string>, lines: seq<LineRead>,
                taskQuit: seq<bool>, taskClosed: seq<bool>): ReadRun
  {
    match openError
    case Some(detail) => ReadRun([], Err(OpenFailure(inputFile, detail)))
    case None => ReadFrom(lines, taskQuit, taskClosed, 0)
  }

  /** `read_entries` with its `for` loop over the lines. */
  method ReadEntries(inputFile: string, openError: Option<string>, lines: seq<LineRead>,
                     taskQuit: seq<bool>, taskClosed: seq<bool>)
    returns (run: ReadRun)
    ensures run == Read(inputFile, openError, lines, taskQuit, taskClosed)
  {
    if openError.Some? {
      return ReadRun([], Err(OpenFailure(inputFile, openError.value)));
    }
    ghost var total := ReadFrom(lines, taskQuit, taskClosed, 0);
    var sent: seq<string> := [];
    var i := 0;
    while i < |lines|
      invariant i <= |lines|
      invariant var rest := ReadFrom(lines, taskQuit, taskClosed, i);
        total == ReadRun(sent + rest.sent, rest.result)
    {
      if lines[i].ReadError? {
        return ReadRun(sent, Err(ReadFailure(lines[i].detail)));
      }
      var line := lines[i].text;
      if !IsEntry(line) {
        i := i + 1;
        continue;
      }
      if Pending(taskQuit, i) {
        break;
      }
      if Pending(taskClosed, i) {
        return ReadRun(sent, Err(SendFailure));
      }
      ghost var rest := ReadFrom(lines, taskQuit, taskClosed, i + 1);
      AppendAssoc(sent, [line], rest.sent);
      sent := sent + [line];
      i := i + 1;
    }
    if !Pending(taskQuit, i) {
      // `end_task_tx`, whose send failure is ignored
      sent := sent + [""];
    }
    run := ReadRun(sent, Ok);
  }

  /** Lines that are read without error and are not sent (because they are
      not entries, or nothing stops the reader at them) up to `j`. */
  predicate LinesUnhindered(lines: seq<LineRead>, taskQuit: seq<bool>, taskClosed: seq<bool>, j: nat)
    requires j <= |lines|
  {
    forall k :: 0 <= k < j ==> lines[k].Line? && (IsEntry(lines[k].text) ==> !Pending(taskQuit, k) && !Pending(taskClosed, k))
  }

  /** Lines read without a stop contribute their entries, in order, ahead of the rest. */
  lemma {:induction false} ReadPrefix(lines: seq<LineRead>, taskQuit: seq<bool>, taskClosed: seq<bool>, i: nat, j: nat)
    requires i <= j <= |lines| && LinesUnhindered(lines, taskQuit, taskClosed, j)
    ensures var rest := ReadFrom(lines, taskQuit, taskClosed, j);
      ReadFrom(lines, taskQuit, taskClosed, i) == ReadRun(Kept(lines[i..j]) + rest.sent, rest.result)
    decreases j - i
  {
    if i < j {
      ReadPrefix(lines, taskQuit, taskClosed, i + 1, j);
      assert lines[i..j][0] == lines[i] && lines[i..j][1..] == lines[i + 1..j];
      var rest := ReadFrom(lines, taskQuit, taskClosed, j);
      var head: seq<string> := if IsEntry(lines[i].text) then [lines[i].text] else [];
      AppendAssoc(head, Kept(lines[i + 1..j]), rest.sent);
    } else {
      assert lines[i..j] == [];
    }
  }

  /** With no read error and no quit or closure: exactly the entries, in the
      file's order, followed by one empty sentinel. */
  lemma ReadAll(lines: seq<LineRead>, taskQuit: seq<bool>, taskClosed: seq<bool>)
    requires LinesUnhindered(lines, taskQuit, taskClosed, |lines|) && !Pending(taskQuit, |lines|)
    ensures ReadFrom(lines, taskQuit, taskClosed, 0) == ReadRun(Kept(lines) + [""], Ok)
  {
    ReadPrefix(lines, taskQuit, taskClosed, 0, |lines|);
    assert lines[0..|lines|] == lines;
  }

  /** A quit pending when the entry at `j` is reached: the entries before it
      were sent, neither it nor any later line is, and no sentinel follows. */
  lemma ReadUntilQuit(lines: seq<LineRead>, taskQuit: seq<bool>, taskClosed: seq<bool>, j: nat)
    requires j < |lines| && LinesUnhindered(lines, taskQuit, taskClosed, j)
    requires lines[j].Line? && IsEntry(lines[j].text) && Pending(taskQuit, j)
    ensures ReadFrom(lines, taskQuit, taskClosed, 0) == ReadRun(Kept(lines[..j]), Ok)
  {
    ReadPrefix(lines, taskQuit, taskClosed, 0, j);
    assert lines[0..j] == lines[..j];
  }

  /** A read error at line `j`: `Err` at once, the entries before it stay
      sent, and no sentinel follows. */
  lemma ReadUntilError(lines: seq<LineRead>, taskQuit: seq<bool>, taskClosed: seq<bool>, j: nat)
    requires j < |lines| && LinesUnhindered(lines, taskQuit, taskClosed, j) && lines[j].ReadError?
    ensures ReadFrom(lines, taskQuit, taskClosed, 0) == ReadRun(Kept(lines[..j]), Err(ReadFailure(lines[j].detail)))
  {
    ReadPrefix(lines, taskQuit, taskClosed, 0, j);
    assert lines[0..j] == lines[..j];
  }

  lemma {:induction false} KeptAreEntries(lines: seq<LineRead>)
    ensures forall k :: 0 <= k < |Kept(lines)| ==> IsEntry(Kept(lines)[k])
  {
    if lines != [] {
      KeptAreEntries(lines[1..]);
    }
  }

  /** Whatever the oracles: every message sent is an entry (never empty, never
      a comment) except an empty sentinel, which can only be the last message
      and is sent only when every line was read and no quit was pending. */
  lemma {:induction false} OnlyEntriesSent(lines: seq<LineRead>, taskQuit: seq<bool>, taskClosed: seq<bool>, i: nat)
    requires i <= |lines|
    ensures var run := ReadFrom(lines, taskQuit, taskClosed, i);
      (forall k :: 0 <= k < |run.sent| ==> IsEntry(run.sent[k]) || (k == |run.sent| - 1 && run.sent[k] == "")) &&
      ("" in run.sent ==> run.result == Ok && !Pending(taskQuit, |lines|) &&
                          forall k :: i <= k < |lines| ==> lines[k].Line?)
    decreases |lines| - i
  {
    if i < |lines| && lines[i].Line? {
      OnlyEntriesSent(lines, taskQuit, taskClosed, i + 1);
      var run := ReadFrom(lines, taskQuit, taskClosed, i);
      var rest := ReadFrom(lines, taskQuit, taskClosed, i + 1);
      if IsEntry(lines[i].text) && !Pending(taskQuit, i) && !Pending(taskClosed, i) {
        assert run.sent == [lines[i].text] + rest.sent;
        assert "" in run.sent ==> "" in rest.sent;
        forall k | 1 <= k < |run.sent| ensures run.sent[k] == rest.sent[k - 1] {}
      }
    }
  }
}
