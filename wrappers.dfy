/** Failure-carrying wrappers, and one sequence fact, used across the model. */
module Wrappers {

  datatype Option<T> = None | Some(value: T)

  /** The value of an operation that either succeeds or raises. */
  datatype Result<T, E> = Ok(value: T) | Err(error: E)

  /**
   * Appending in two steps is appending once: the step a loop takes when it
   * extends what it has built so far by the next part.
   */
  lemma AppendAssoc<T>(base: seq<T>, done: seq<T>, next: seq<T>)
    ensures (base + done) + next == base + (done + next)
  {
  }
}
