/** The outcome of one stage of the verbose-expression compiler: a value, or
    the failure that the stage throws. Every failure is terminal for one
    compile call; the kinds below are the throws of the three stages. */
module Outcome {

  datatype Error =
    // tokenizer
    | UnfinishedQuotation
    // representer
    | MismatchedParentheses
    | UnfinishedExpression
    // emitter
    | UnknownCommand(command: string)
    | ArgCountMismatch(command: string, expected: nat, found: nat)
    | TooFewArgs(command: string, minimum: nat, found: nat)
    | NotAnInteger(command: string, text: string)
    | MissingArgument(command: string)

  datatype Option<T> = None | Some(value: T)

  datatype Result<T> = Ok(value: T) | Err(error: Error) {

    predicate IsFailure() {
      Err?
    }

    function PropagateFailure<U>(): Result<U>
      requires Err?
    {
      Err(error)
    }

    function Extract(): T
      requires Ok?
    {
      value
    }
  }
}
