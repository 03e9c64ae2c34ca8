/** An optional value, standing for a JavaScript property or element that may
    be `undefined`. It supports Dafny's `:-` operator, so that a chain of
    optional accesses (`a?.b?.c`) reads as a sequence of `:-` steps. */
module Wrappers {

  datatype Option<+T> = None | Some(value: T) {

    predicate IsFailure() {
      None?
    }

    function PropagateFailure<U>(): Option<U>
      requires None?
    {
      None
    }

    function Extract(): T
      requires Some?
    {
      value
    }
  }
}
