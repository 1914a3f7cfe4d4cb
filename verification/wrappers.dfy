/** Failure-carrying values shared by every module of the model. */
module Wrappers {

  /** An optional value: Rust's `Option`, Python's `None`-or-value. */
  datatype Option<+T> = None | Some(value: T)

  /**
   * The outcome of an operation that may abort. `Ok` is a normal return;
   * `Err` stands for a Rust panic or a raised Python exception, with the
   * kind of failure in `error`.
   */
  datatype Result<+T, +E> = Ok(value: T) | Err(error: E) {
    predicate IsFailure() { Err? }

    function PropagateFailure<U>(): Result<U, E>
      requires Err?
    {
      Err(error)
    }

    function Extract(): T
      requires Ok?
    {
      value
    }
  }
}
