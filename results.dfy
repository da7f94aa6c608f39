/** Success-or-failure values shared by every module of the model. The scripts
    signal failure by raising an exception (SyntaxError, ValueError,
    TypeError, StopIteration) or by returning None; here each such exit is a
    value the caller gets back. */
module Results {

  datatype Option<+T> = None | Some(value: T)

  datatype Result<+T, +E> = Ok(value: T) | Err(error: E) {

    predicate IsFailure() { Err? }

    function PropagateFailure<U>(): Result<U, E>
      requires Err?
    {
      Err(error)
    }

    function Extract(): T
      requires Ok?
    {
      value
    }
  }
}
