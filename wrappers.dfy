/** Option and Result, the two failure-carrying wrappers the rest of the model uses. */
module Wrappers {

  datatype Option<+T> = None | Some(value: T)

  datatype Result<+T, +E> = Ok(value: T) | Err(error: E)

  /** Outcome of running a program against a text. `Panic` stands for a Rust panic
      (an index or a slice out of range, `todo!()`), `OutOfFuel` for a recursion
      that the fuel bound cut short. */
  datatype Verdict = Accept | Reject | Panic | OutOfFuel
}
