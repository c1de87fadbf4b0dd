/** Failure kinds and the failure-compatible result type shared by every parser.
    A parser that "raises" in the source returns `Err` here; the kind records which
    exception class escapes to the caller. */
module Outcomes {

  /** The exception classes the parsers let escape. `Other` stands for the ones no
      caller distinguishes: AttributeError (`.groups()` on a failed match),
      IndexError (`expr[0]` of an empty string, `random.choice` of an empty dict),
      OverflowError (date arithmetic, C-integer conversion) and ZeroDivisionError. */
  datatype Error = SyntaxError | ValueError | KeyError | Other

  datatype Result<T> = Ok(value: T) | Err(error: Error) {

    predicate IsFailure() {
      Err?
    }

    function PropagateFailure<U>(): Result<U>
      requires Err?
    {
      Err(error)
    }

    function Extract(): T
      requires Ok?
    {
      value
    }
  }

  datatype Option<T> = None | Some(value: T)
}
