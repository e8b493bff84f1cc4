/** Failure values shared by the whole model. */
module Wrappers {

  /** The run-time exceptions the interpreter can raise while executing a line.
      None of them is caught, so any of them ends the interpreted program. */
  datatype Fault =
    | NullPointer        // a null register operand or label, or a missing map entry that is unboxed
    | IndexOutOfBounds   // an array, list or string index outside its range
    | NumberFormat       // Integer.parseInt on something that is not a 32-bit decimal numeral
    | Arithmetic         // integer division by zero
    | NoSuchElement      // the console has no more input to read
    | IllegalArgument    // a value that is not a Unicode code point, printed as a character

  datatype Option<+T> = None | Some(value: T)

  /** The outcome of an operation that may raise one of the faults above. */
  datatype Result<+T> = Ok(value: T) | Err(fault: Fault) {
    predicate IsFailure() { Err? }

    function PropagateFailure<U>(): Result<U>
      requires Err?
    {
      Err(fault)
    }

    function Extract(): T
      requires Ok?
    {
      value
    }
  }
}
