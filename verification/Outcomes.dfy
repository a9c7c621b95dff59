/** Small result types shared by the model: optional values, the exceptions of the
    CDR stream, and what a call into the type support object does. */
module Outcomes {

  datatype Option<+T> = None | Some(value: T) {
    predicate IsFailure() { None? }

    function PropagateFailure<U>(): Option<U>
      requires None?
    {
      None
    }

    function Extract(): T
      requires Some?
    {
      value
    }
  }

  /** How a stream operation ends: normally, or with one of the two exceptions. */
  datatype Status = Done | NotEnoughMemory | BadParam {
    predicate IsFailure() { !Done? }
  }

  /** A boolean function that may let an exception escape instead of returning. */
  datatype CallResult = Returned(value: bool) | Threw(error: Status)
}
