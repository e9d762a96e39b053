/** The expression tree: a literal with its unescaped text, or a command
    with its name and its ordered arguments. Both carry their text in
    `value`; only a command has arguments, so a literal never has any. */
module Elements {
  import opened Outcome

  datatype Element = Literal(value: string) | Command(value: string, args: seq<Element>)

  /** A command's argument count must be exactly `count`. */
  function VerifyArgCount(e: Element, count: nat, cmd: string): (r: Result<()>)
    requires e.Command?
    ensures r.Ok? <==> |e.args| == count
    ensures r.Err? ==> r.error == ArgCountMismatch(cmd, count, |e.args|)
  {
    if |e.args| != count then Err(ArgCountMismatch(cmd, count, |e.args|)) else Ok(())
  }

  /** A command's argument count must be at least `count`. */
  function VerifyMinArgCount(e: Element, count: nat, cmd: string): (r: Result<()>)
    requires e.Command?
    ensures r.Ok? <==> |e.args| >= count
    ensures r.Err? ==> r.error == TooFewArgs(cmd, count, |e.args|)
  {
    if |e.args| < count then Err(TooFewArgs(cmd, count, |e.args|)) else Ok(())
  }
}
