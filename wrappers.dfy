/** The optional value returned by the lookups (`Option` in the source). */
module Wrappers {
  datatype Option<+T> = None | Some(value: T)
  {
    predicate IsFailure() {
      None?
    }

    /** The `?` operator on an `Option`. */
    function PropagateFailure<U>(): Option<U>
      requires None?
    {
      None
    }

    function Extract(): T
      requires Some?
    {
      value
    }
  }
}
