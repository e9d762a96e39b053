/** Stage 3: the emitter. It walks the tree and writes the pattern: a
    literal as its escaped text, a command by the rule for its name, with
    its arguments rendered recursively and joined in order. */
module Emitter {
  import opened Outcome
  import opened Elements
  import opened Escaping

  predicate IsDigit(c: char) {
    '0' <= c <= '9'
  }

  /** A repetition count or group number: one or more decimal digits and
      nothing else. */
  predicate LooksLikeInteger(s: string) {
    |s| > 0 && forall k :: 0 <= k < |s| ==> IsDigit(s[k])
  }

  /** The pattern of one tree. */
  function Emit(e: Element): Result<string>
    decreases e, 1
  {
    match e
    case Literal(v) => Ok(Escape(v))
    case Command(cmd, args) =>
      if cmd == "match" then
        Join(e, "", 0, 0, "")
      else if cmd == "group" then
        var s :- Join(e, "", 0, 0, "(");
        Ok(s + ")")
      else if cmd == "refer" then
        // the group number is read before the argument count is checked
        if |args| == 0 then Err(MissingArgument(cmd))
        else if !LooksLikeInteger(args[0].value) then Err(NotAnInteger(cmd, args[0].value))
        else
          var _ :- VerifyArgCount(e, 1, cmd);
          Ok("\\" + args[0].value)
      else if cmd == "begin" || cmd == "^" then
        var _ :- VerifyArgCount(e, 0, cmd);
        Ok("^")
      else if cmd == "end" || cmd == "$" then
        var _ :- VerifyArgCount(e, 0, cmd);
        Ok("$")
      else if cmd == "\\n" || cmd == "\\r" || cmd == "\\t" then
        var _ :- VerifyArgCount(e, 0, cmd);
        Ok(cmd)
      else if cmd == "anychar" || cmd == "." then
        var _ :- VerifyArgCount(e, 0, cmd);
        Ok(".")
      else if cmd == "except" then
        var _ :- VerifyMinArgCount(e, 1, cmd);
        var s :- Join(e, "", 0, 0, "[^");
        Ok(s + "]")
      else if cmd == "range" then
        var _ :- VerifyArgCount(e, 2, cmd);
        var s :- Join(e, "-", 0, 0, "[");
        Ok(s + "]")
      else if cmd == "optional" || cmd == "zero-or-one" || cmd == "?" then
        var _ :- VerifyMinArgCount(e, 1, cmd);
        var s :- Join(e, "", 0, 0, "(?:");
        Ok(s + ")?")
      else if cmd == "one-or-more" || cmd == "+" then
        var _ :- VerifyMinArgCount(e, 1, cmd);
        var s :- Join(e, "", 0, 0, "(?:");
        Ok(s + ")+")
      else if cmd == "zero-or-more" || cmd == "*" then
        var _ :- VerifyMinArgCount(e, 1, cmd);
        var s :- Join(e, "", 0, 0, "(?:");
        Ok(s + ")*")
      else if cmd == "or" || cmd == "|" then
        var _ :- VerifyMinArgCount(e, 1, cmd);
        var s :- Join(e, "|", 0, 0, "(?:");
        Ok(s + ")")
      else if cmd == "times" then
        var _ :- VerifyMinArgCount(e, 2, cmd);
        var n := args[0].value;
        if !LooksLikeInteger(n) then Err(NotAnInteger(cmd, n))
        else
          var s :- Join(e, "", 1, 1, "");
          Ok(s + "{" + n + "}")
      else if cmd == "mintimes" then
        var _ :- VerifyMinArgCount(e, 2, cmd);
        var n := args[0].value;
        if !LooksLikeInteger(n) then Err(NotAnInteger(cmd, n))
        else
          var s :- Join(e, "", 1, 1, "");
          Ok(s + "{" + n + ",}")
      else if cmd == "minmaxtimes" then
        var _ :- VerifyMinArgCount(e, 3, cmd);
        var n := args[0].value;
        var m := args[1].value;
        if !LooksLikeInteger(n) then Err(NotAnInteger(cmd, n))
        else if !LooksLikeInteger(m) then Err(NotAnInteger(cmd, m))
        else
          var s :- Join(e, "", 2, 2, "");
          Ok(s + "{" + n + "," + m + "}")
      else
        Err(UnknownCommand(cmd))
  }

  /** Appending the patterns of the arguments of `e` from index `i` on to
      `acc`, each but the one at index `start` preceded by `sep`; the first
      argument that fails fails the whole. */
  function Join(e: Element, sep: string, start: nat, i: nat, acc: string): Result<string>
    requires e.Command?
    decreases e, 0, |e.args| - i
  {
    if i >= |e.args| then Ok(acc)
    else
      var piece :- Emit(e.args[i]);
      Join(e, sep, start, i + 1, acc + (if i > start then sep else "") + piece)
  }

  /** The argument loop: it appends to the pattern being written, the
      separator first, then the argument's own pattern. */
  method JoinArgs(rep: Element, sep: string, starti: nat, prefix: string) returns (r: Result<string>)
    requires rep.Command?
    ensures r == Join(rep, sep, starti, starti, prefix)
    decreases rep, 0
  {
    var result := prefix;
    var i := starti;
    while i < |rep.args|
      invariant starti <= i
      invariant Join(rep, sep, starti, i, result) == Join(rep, sep, starti, starti, prefix)
      decreases |rep.args| - i
    {
      var arg := rep.args[i];
      ghost var before := result;
      if i > starti {
        result := result + sep;
      }
      var piece := Process(arg);
      if piece.Err? {
        return Err(piece.error);
      }
      result := result + piece.value;
      assert result == before + (if i > starti then sep else "") + piece.value;
      i := i + 1;
    }
    r := Ok(result);
  }

  /** The emitter itself: the pattern text grows as each command's rule
      writes its opening, its arguments and its closing. */
  method Process(rep: Element) returns (r: Result<string>)
    ensures r == Emit(rep)
    decreases rep, 1
  {
    var result := "";
    if rep.Literal? {
      result := EscapedLiteral(rep.value);
      return Ok(result);
    }
    var cmd := rep.value;
    var args := rep.args;
    if cmd == "match" {
      r := JoinArgs(rep, "", 0, result);
      return;
    } else if cmd == "group" {
      assert result + "(" == "(";
      result := result + "(";
      var joined := JoinArgs(rep, "", 0, result);
      if joined.Err? {
        return Err(joined.error);
      }
      result := joined.value + ")";
    } else if cmd == "refer" {
      if |args| == 0 {
        return Err(MissingArgument(cmd));
      }
      if !LooksLikeInteger(args[0].value) {
        return Err(NotAnInteger(cmd, args[0].value));
      }
      if |args| != 1 {
        return Err(ArgCountMismatch(cmd, 1, |args|));
      }
      assert result + "\\" + args[0].value == "\\" + args[0].value;
      result := result + "\\" + args[0].value;
    } else if cmd == "begin" || cmd == "^" {
      if |args| != 0 {
        return Err(ArgCountMismatch(cmd, 0, |args|));
      }
      assert result + "^" == "^";
      result := result + "^";
    } else if cmd == "end" || cmd == "$" {
      if |args| != 0 {
        return Err(ArgCountMismatch(cmd, 0, |args|));
      }
      assert result + "$" == "$";
      result := result + "$";
    } else if cmd == "\\n" || cmd == "\\r" || cmd == "\\t" {
      if |args| != 0 {
        return Err(ArgCountMismatch(cmd, 0, |args|));
      }
      assert result + cmd == cmd;
      result := result + cmd;
    } else if cmd == "anychar" || cmd == "." {
      if |args| != 0 {
        return Err(ArgCountMismatch(cmd, 0, |args|));
      }
      assert result + "." == ".";
      result := result + ".";
    } else if cmd == "except" {
      if |args| < 1 {
        return Err(TooFewArgs(cmd, 1, |args|));
      }
      assert result + "[^" == "[^";
      result := result + "[^";
      var joined := JoinArgs(rep, "", 0, result);
      if joined.Err? {
        return Err(joined.error);
      }
      result := joined.value + "]";
    } else if cmd == "range" {
      if |args| != 2 {
        return Err(ArgCountMismatch(cmd, 2, |args|));
      }
      assert result + "[" == "[";
      result := result + "[";
      var joined := JoinArgs(rep, "-", 0, result);
      if joined.Err? {
        return Err(joined.error);
      }
      result := joined.value + "]";
    } else if cmd == "optional" || cmd == "zero-or-one" || cmd == "?" {
      if |args| < 1 {
        return Err(TooFewArgs(cmd, 1, |args|));
      }
      assert result + "(?:" == "(?:";
      result := result + "(?:";
      var joined := JoinArgs(rep, "", 0, result);
      if joined.Err? {
        return Err(joined.error);
      }
      result := joined.value + ")?";
    } else if cmd == "one-or-more" || cmd == "+" {
      if |args| < 1 {
        return Err(TooFewArgs(cmd, 1, |args|));
      }
      assert result + "(?:" == "(?:";
      result := result + "(?:";
      var joined := JoinArgs(rep, "", 0, result);
      if joined.Err? {
        return Err(joined.error);
      }
      result := joined.value + ")+";
    } else if cmd == "zero-or-more" || cmd == "*" {
      if |args| < 1 {
        return Err(TooFewArgs(cmd, 1, |args|));
      }
      assert result + "(?:" == "(?:";
      result := result + "(?:";
      var joined := JoinArgs(rep, "", 0, result);
      if joined.Err? {
        return Err(joined.error);
      }
      result := joined.value + ")*";
    } else if cmd == "or" || cmd == "|" {
      if |args| < 1 {
        return Err(TooFewArgs(cmd, 1, |args|));
      }
      assert result + "(?:" == "(?:";
      result := result + "(?:";
      var joined := JoinArgs(rep, "|", 0, result);
      if joined.Err? {
        return Err(joined.error);
      }
      result := joined.value + ")";
    } else if cmd == "times" {
      if |args| < 2 {
        return Err(TooFewArgs(cmd, 2, |args|));
      }
      var n := args[0].value;
      if !LooksLikeInteger(n) {
        return Err(NotAnInteger(cmd, n));
      }
      var joined := JoinArgs(rep, "", 1, result);
      if joined.Err? {
        return Err(joined.error);
      }
      result := joined.value + "{" + n + "}";
    } else if cmd == "mintimes" {
      if |args| < 2 {
        return Err(TooFewArgs(cmd, 2, |args|));
      }
      var n := args[0].value;
      if !LooksLikeInteger(n) {
        return Err(NotAnInteger(cmd, n));
      }
      var joined := JoinArgs(rep, "", 1, result);
      if joined.Err? {
        return Err(joined.error);
      }
      result := joined.value + "{" + n + ",}";
    } else if cmd == "minmaxtimes" {
      if |args| < 3 {
        return Err(TooFewArgs(cmd, 3, |args|));
      }
      var n := args[0].value;
      var m := args[1].value;
      if !LooksLikeInteger(n) {
        return Err(NotAnInteger(cmd, n));
      }
      if !LooksLikeInteger(m) {
        return Err(NotAnInteger(cmd, m));
      }
      var joined := JoinArgs(rep, "", 2, result);
      if joined.Err? {
        return Err(joined.error);
      }
      result := joined.value + "{" + n + "," + m + "}";
    } else {
      return Err(UnknownCommand(cmd));
    }
    r := Ok(result);
  }
}
