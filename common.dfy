/** Values shared by every stage: the crate's error result, an optional value,
    and the non-blocking poll of a quit signal or channel state. */
module Common {

  /** `Result<(), Error>` of a stage, where `Error` carries only a message. */
  datatype Outcome = Ok | Err(message: string)

  datatype Option<T> = None | Some(value: T)

  /** Oracle for a condition observed at poll number `i` (a quit signal being
      pending, a channel being closed, a write failing). An oracle shorter than
      the run never reports the condition past its end, so `[]` means "never". */
  predicate Pending(oracle: seq<bool>, i: nat)
  {
    i < |oracle| && oracle[i]
  }

  /** Concatenation is associative (stated once so that callers with a large
      proof context need not rediscover it). */
  lemma AppendAssoc<T>(a: seq<T>, b: seq<T>, c: seq<T>)
    ensures (a + b) + c == a + (b + c)
  {
  }

  /** Display text of crossbeam-channel's `SendError`, the error of a send on
      a channel whose receiver has been dropped. */
  const ClosedChannel: string := "sending on a disconnected channel"
}
