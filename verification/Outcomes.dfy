/** What one branch of an abstracted program can come to.  `__lart_cancel` ends the branch: it has no outcome at all. */
module Outcomes {

  datatype Option<+T> = None | Some(value: T)

  /** The result of a step that may cancel the branch it runs in. */
  datatype Outcome<+T> = Cancelled | Alive(value: T) {

    predicate IsFailure() {
      Cancelled?
    }

    function PropagateFailure<U>(): Outcome<U>
      requires Cancelled?
    {
      Cancelled
    }

    function Extract(): T
      requires Alive?
    {
      value
    }
  }
}
