/** Results and options: the source's `Result<_, String>` and `Option<_>`. */
module Wrappers {

  datatype Option<+T> = None | Some(value: T)

  datatype Result<+T> = Ok(value: T) | Err(error: string) {
    predicate IsFailure() {
      Err?
    }

    function PropagateFailure<U>(): Result<U>
      requires Err?
    {
      Err(error)
    }

    function Extract(): T
      requires Ok?
    {
      value
    }
  }
}
