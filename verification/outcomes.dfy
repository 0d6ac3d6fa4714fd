/** Failure-carrying results for the operations of the model.

    The Python code signals failures with exceptions; each exception that an
    operation of the model can raise is one constructor of `Error`, and every
    fallible operation returns a `Result`.
 */
module Outcomes {

  datatype Option<+T> = None | Some(value: T)

  /** The exceptions the modelled Python code can raise. */
  datatype Error =
    | ZeroDivision                  // ZeroDivisionError from `/`
    | NoneAttribute                 // AttributeError on a value that is None
    | UnboundLocal(name: string)    // UnboundLocalError on a never-assigned local
    | IndexOutOfRange               // IndexError from a list subscript
    | ZeroRangeStep                 // ValueError: range() step is zero
    | NotSubscriptable              // TypeError: object is not subscriptable
    | ParseFailure(row: seq<string>) // `Failed to parse line: "<row>"`

  datatype Result<+T> = Ok(value: T) | Err(error: Error) {
    predicate IsFailure() { Err? }

    function PropagateFailure<U>(): Result<U>
      requires Err?
    {
      Err(error)
    }

    function Extract(): T
      requires Ok?
    {
      value
    }
  }
}
