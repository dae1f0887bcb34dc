/** Outcomes shared by every part of the driver model. */
module Results {

  /** A value that may be absent: a null `char *`, a missing search result. */
  datatype Option<+T> = None | Some(value: T)

  /**
   * A point at which the driver's C code has no defined behaviour, or hands
   * its caller bytes nobody wrote. The model reports the fault and stops
   * there: statements after it are not executed.
   */
  datatype Fault =
    | MissingDelimiter       // a null strchr/strstr/strrchr result used in pointer arithmetic
    | NegativeLength         // a length or byte count came out negative
    | PayloadOverrun         // memcpy reads past the end of the buffer readFromBoard allocated
    | IndeterminateBytes     // memcpy copies bytes of that buffer that were never written
    | ChannelOutOfRange      // clients[channel] with channel outside the caller's table
    | TerminatorOutOfBounds  // the terminator write in recv lands outside the caller's pointer
    | Indeterminate          // a pointer never assigned, or already freed, is read or freed
    | PeerTableOverflow      // an entry is written past the end of the peer array

  /** The outcome of a step that may hit undefined behaviour. */
  datatype Result<+T> = Ok(value: T) | Err(fault: Fault) {
    predicate IsFailure() { Err? }

    function PropagateFailure<U>(): Result<U>
      requires Err?
    {
      Err(fault)
    }

    function Extract(): T
      requires Ok?
    {
      value
    }
  }

  /** What a driver operation hands back to its caller. */
  datatype Status = Returned(ok: bool) | Undefined(fault: Fault)
}
