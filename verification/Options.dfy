/** Optional values, and the results of calls that can panic. */
module Options {

  datatype Option<+T> = None | Some(value: T)

  datatype Outcome<+T> = Returns(value: T) | Panics {
    predicate IsFailure() {
      Panics?
    }

    function PropagateFailure<U>(): Outcome<U>
      requires IsFailure()
    {
      Panics
    }

    function Extract(): T
      requires !IsFailure()
    {
      value
    }
  }

}
