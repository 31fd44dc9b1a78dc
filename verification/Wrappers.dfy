/** Result types. `Panic` is the kernel's panic: a failed assertion, an `unwrap` of
    nothing, an index out of range or an arithmetic overflow (the kernel is built with
    overflow checks on). Nothing is claimed about the state after one. */
module Wrappers {

  datatype Option<+T> = None | Some(value: T)

  datatype Outcome<+T> = Panic | Ok(value: T) {

    predicate IsFailure() {
      Panic?
    }

    function PropagateFailure<U>(): Outcome<U>
      requires Panic?
    {
      Panic
    }

    function Extract(): T
      requires Ok?
    {
      value
    }
  }
}
