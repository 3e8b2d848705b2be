/** The writer stage `write_entries`: it recreates the output file, writes the
    playlist marker line, then appends each received path as its own CRLF
    line until the empty sentinel or the closing of its channel. Any failure
    raises the writer-quit signal and returns an error; what was already
    written stays written.

    The writer channel is the sequence `received` (its end is the channel
    closing); the file is the text `written`; `writeFails` says which write
    fails: index 0 is the marker line, index `i + 1` the line for `received[i]`. */
module Writer {
  import opened Common

  /** What the writer leaves in the output file, whether it raised the
      writer-quit signal, and what it returns. */
  datatype WriteRun = WriteRun(written: string, quitSent: bool, result: Outcome)

  const Header: string := "#\r\n"

  /** `FAILED_TO_APPEND_MSG` with the file name and the I/O error. */
  function AppendFailure(outputFile: string, ioError: string): string
  {
    "failed to append a line to the output file '" + outputFile + "': " + ioError
  }

  function CreateFailure(outputFile: string, ioError: string): string
  {
    "failed to create the output file '" + outputFile + "': " + ioError
  }

  /** One path as a playlist line. */
  function LineOf(path: string): string
  {
    path + "\r\n"
  }

  /** The lines of a sequence of paths, in order. */
  function Lines(paths: seq<string>): string
  {
    if paths == [] then "" else LineOf(paths[0]) + Lines(paths[1..])
  }

  /** The complete playlist file for the given paths. */
  function Playlist(paths: seq<string>): string
  {
    Header + Lines(paths)
  }

  /** Index of the first empty message, or the length when the channel
      closes first: the number of paths the loop writes. */
  function FirstEmpty(received: seq<string>): (k: nat)
    ensures k <= |received|
    ensures forall j :: 0 <= j < k ==> received[j] != ""
    ensures k < |received| ==> received[k] == ""
  {
    if received == [] || received[0] == "" then 0 else 1 + FirstEmpty(received[1..])
  }

  /** Whether the write of the marker line fails. */
  predicate HeaderFails(writeFails: seq<bool>)
  {
    Pending(writeFails, 0)
  }

  /** Whether the write of the line for the `i`-th message fails. */
  predicate LineFails(writeFails: seq<bool>, i: nat)
  {
    Pending(writeFails, i + 1)
  }

  /** The loop from message `i` on; the method is proved against it. */
  function WriteFrom(outputFile: string, received: seq<string>, writeFails: seq<bool>, ioError: string, i: nat): WriteRun
    requires i <= |received|
    decreases |received| - i
  {
    if i == |received| || received[i] == "" then WriteRun("", false, Ok)
    else if LineFails(writeFails, i) then WriteRun("", true, Err(AppendFailure(outputFile, ioError)))
    else
      var rest := WriteFrom(outputFile, received, writeFails, ioError, i + 1);
      WriteRun(LineOf(received[i]) + rest.written, rest.quitSent, rest.result)
  }

  /** The whole of `write_entries`; `createError` is the failure of `File::create`. */
  function Write(outputFile: string, createError: Option<string>, received: seq<string>,
                 writeFails: seq<bool>, ioError: string): WriteRun
  {
    match createError
    case Some(detail) => WriteRun("", true, Err(CreateFailure(outputFile, detail)))
    case None =>
      if HeaderFails(writeFails) then WriteRun("", true, Err(AppendFailure(outputFile, ioError)))
      else
        var rest := WriteFrom(outputFile, received, writeFails, ioError, 0);
        WriteRun(Header + rest.written, rest.quitSent, rest.result)
  }

  /** `write_entries` with its `loop`, appending to the output buffer. */
  method WriteEntries(outputFile: string, createError: Option<string>, received: seq<string>,
                      writeFails: seq<bool>, ioError: string)
    returns (run: WriteRun)
    ensures run == Write(outputFile, createError, received, writeFails, ioError)
  {
    if createError.Some? {
      return WriteRun("", true, Err(CreateFailure(outputFile, createError.value)));
    }
    var written: string := "";
    if HeaderFails(writeFails) {
      return WriteRun(written, true, Err(AppendFailure(outputFile, ioError)));
    }
    written := written + Header;
    ghost var total := Write(outputFile, createError, received, writeFails, ioError);
    var i := 0;
    while true
      invariant i <= |received|
      invariant var rest := WriteFrom(outputFile, received, writeFails, ioError, i);
        total == WriteRun(written + rest.written, rest.quitSent, rest.result)
      decreases |received| - i
    {
      // `recv().unwrap_or(Default::default())`: a closed channel reads as ""
      var path := if i < |received| then received[i] else "";
      if path == "" {
        break;
      }
      if LineFails(writeFails, i) {
        return WriteRun(written, true, Err(AppendFailure(outputFile, ioError)));
      }
      ghost var rest := WriteFrom(outputFile, received, writeFails, ioError, i + 1);
      AppendAssoc(written, LineOf(path), rest.written);
      written := written + LineOf(path);
      i := i + 1;
    }
    run := WriteRun(written, false, Ok);
  }

  lemma {:induction false} LinesAppend(a: seq<string>, b: seq<string>)
    ensures Lines(a + b) == Lines(a) + Lines(b)
  {
    if a != [] {
      assert (a + b)[0] == a[0] && (a + b)[1..] == a[1..] + b;
      LinesAppend(a[1..], b);
      AppendAssoc(LineOf(a[0]), Lines(a[1..]), Lines(b));
    } else {
      assert a + b == b;
    }
  }

  /** Writes that do not fail append the lines of the paths before the first
      empty message. */
  lemma {:induction false} WritePrefix(outputFile: string, received: seq<string>, writeFails: seq<bool>, ioError: string, i: nat, j: nat)
    requires i <= j <= FirstEmpty(received)
    requires forall k :: i <= k < j ==> !LineFails(writeFails, k)
    ensures var rest := WriteFrom(outputFile, received, writeFails, ioError, j);
      WriteFrom(outputFile, received, writeFails, ioError, i) == WriteRun(Lines(received[i..j]) + rest.written, rest.quitSent, rest.result)
    decreases j - i
  {
    if i < j {
      WritePrefix(outputFile, received, writeFails, ioError, i + 1, j);
      assert received[i..j][0] == received[i] && received[i..j][1..] == received[i + 1..j];
      var rest := WriteFrom(outputFile, received, writeFails, ioError, j);
      AppendAssoc(LineOf(received[i]), Lines(received[i + 1..j]), rest.written);
    } else {
      assert received[i..j] == [];
    }
  }

  /** Success: the file is the marker line and one CRLF line per path before
      the first empty message, and the quit signal is not raised. Success
      happens exactly when the file is created and none of those writes fails. */
  lemma WriteSucceeds(outputFile: string, createError: Option<string>, received: seq<string>, writeFails: seq<bool>, ioError: string)
    ensures var run := Write(outputFile, createError, received, writeFails, ioError);
      var k := FirstEmpty(received);
      (run.result == Ok <==> createError.None? && !HeaderFails(writeFails) && forall n :: 0 <= n < k ==> !LineFails(writeFails, n)) &&
      (run.result == Ok ==> run.written == Playlist(received[..k]) && !run.quitSent)
  {
    var k := FirstEmpty(received);
    if createError.None? && !HeaderFails(writeFails) {
      var m := FirstFailure(writeFails, k);
      WritePrefix(outputFile, received, writeFails, ioError, 0, m);
      assert received[0..m] == received[..m];
      if m < k {
        assert WriteFrom(outputFile, received, writeFails, ioError, m).result.Err?;
      }
    }
  }

  /** The first failing write among writes 1 .. k, or k when none fails. */
  function FirstFailure(writeFails: seq<bool>, k: nat): (m: nat)
    ensures m <= k && forall n :: 0 <= n < m ==> !LineFails(writeFails, n)
    ensures m < k ==> LineFails(writeFails, m)
  {
    if k == 0 then 0
    else
      var m := FirstFailure(writeFails, k - 1);
      if m < k - 1 then m else if LineFails(writeFails, k - 1) then k - 1 else k
  }

  /** Failure: the quit signal is raised, `Err` is returned, and the file holds
      exactly what was written before the failing write, which is not rolled
      back; a file that cannot be created holds nothing. */
  lemma WriteFails(outputFile: string, createError: Option<string>, received: seq<string>, writeFails: seq<bool>, ioError: string)
    ensures var run := Write(outputFile, createError, received, writeFails, ioError);
      var k := FirstEmpty(received);
      var m := FirstFailure(writeFails, k);
      (run.result.Err? <==> run.quitSent) &&
      (createError.Some? ==> run.written == "" && run.result == Err(CreateFailure(outputFile, createError.value))) &&
      (createError.None? && HeaderFails(writeFails) ==> run.written == "" && run.result == Err(AppendFailure(outputFile, ioError))) &&
      (createError.None? && !HeaderFails(writeFails) && m < k ==>
        run.written == Playlist(received[..m]) && run.result == Err(AppendFailure(outputFile, ioError)))
  {
    var k := FirstEmpty(received);
    if createError.None? && !HeaderFails(writeFails) {
      var m := FirstFailure(writeFails, k);
      WritePrefix(outputFile, received, writeFails, ioError, 0, m);
      assert received[0..m] == received[..m];
    }
  }

  /** A closed channel ends the stream exactly like the empty sentinel. */
  lemma ClosedIsSentinel(outputFile: string, createError: Option<string>, received: seq<string>, writeFails: seq<bool>, ioError: string)
    requires "" !in received
    ensures Write(outputFile, createError, received + [""], writeFails, ioError) ==
            Write(outputFile, createError, received, writeFails, ioError)
  {
    var longer := received + [""];
    forall i | 0 <= i <= |received|
      ensures WriteFrom(outputFile, longer, writeFails, ioError, i) == WriteFrom(outputFile, received, writeFails, ioError, i)
    {
      SameFrom(outputFile, received, writeFails, ioError, i);
    }
  }

  lemma {:induction false} SameFrom(outputFile: string, received: seq<string>, writeFails: seq<bool>, ioError: string, i: nat)
    requires "" !in received && i <= |received|
    ensures WriteFrom(outputFile, received + [""], writeFails, ioError, i) == WriteFrom(outputFile, received, writeFails, ioError, i)
    decreases |received| - i
  {
    var longer := received + [""];
    if i < |received| {
      assert longer[i] == received[i];
      SameFrom(outputFile, received, writeFails, ioError, i + 1);
    } else {
      assert longer[i] == "";
    }
  }
}
