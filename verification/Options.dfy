/** The result of an operation the extension may refuse: the C++ code throws, the model returns None. */
module Options {
  datatype Option<+T> = None | Some(value: T) {
    predicate IsFailure() {
      None?
    }

    function PropagateFailure<U>(): Option<U>
      requires None?
    {
      None
    }

    function GetOr(otherwise: T): T {
      if None? then otherwise else value
    }

    function Extract(): T
      requires Some?
    {
      value
    }
  }
}
