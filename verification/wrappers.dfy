/** Small failure-carrying and state-threading datatypes shared by the model. */
module Wrappers {

  /** Python's `Optional[T]`: either nothing or a value. */
  datatype Option<T> = None | Some(value: T)

  /** An operation that either yields a value or raises an error with a message. */
  datatype Result<T> = Success(value: T) | Failure(error: string)

  /** The state after a mutating call on a service object, together with the
      boolean the call returns to its caller. */
  datatype Step<S> = Step(next: S, ok: bool)

  /** Regrouping of sequence concatenation, used to keep inductive steps small. */
  lemma AppendAssoc<T>(a: seq<T>, b: seq<T>, c: seq<T>)
    ensures a + b + c == a + (b + c)
  {
  }
}
