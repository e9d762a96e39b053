/** Stage 2: the representer. It reads a token list whose first token names
    the resulting command; the other tokens become its arguments. A scan
    with a bracket stack collects each outermost bracket group into a
    sub-token buffer and represents that buffer recursively. */
module Representer {
  import opened Outcome
  import opened Elements
  import Tokenizer

  predicate IsOpener(t: string) {
    t == "(" || t == "["
  }

  predicate IsCloser(t: string) {
    t == ")" || t == "]"
  }

  /** A popped opener and the closer being read belong together. */
  predicate Closes(opener: string, closer: string) {
    (opener == "(" && closer == ")") || (opener == "[" && closer == "]")
  }

  /** The number of bracket tokens in a list: it bounds how deep the
      representer can recurse. */
  function Brackets(ts: seq<string>): nat {
    if ts == [] then 0
    else (if IsOpener(ts[0]) || IsCloser(ts[0]) then 1 else 0) + Brackets(ts[1..])
  }

  lemma {:induction false} BracketsAppend(a: seq<string>, b: seq<string>)
    ensures Brackets(a + b) == Brackets(a) + Brackets(b)
    decreases a
  {
    if a == [] {
      assert a + b == b;
    } else {
      assert (a + b)[0] == a[0];
      assert (a + b)[1..] == a[1..] + b;
      BracketsAppend(a[1..], b);
    }
  }

  /** The text of a quoted token without its first and last characters.
      Like the string primitive it models, a one-character token is left
      as it is. */
  function Unquote(token: string): string {
    if |token| >= 2 then token[1..|token| - 1] else token
  }

  /** A token read outside every bracket group: a quoted token becomes a
      literal, anything else a command without arguments. */
  function Leaf(token: string): (e: Element)
    ensures e.Literal? <==> |token| > 0 && Tokenizer.IsQuote(token[0])
    ensures e.Command? ==> e.value == token && e.args == []
    ensures e.Literal? && |token| >= 2 ==> [token[0]] + e.value + [token[|token| - 1]] == token
  {
    if |token| > 0 && Tokenizer.IsQuote(token[0]) then Literal(Unquote(token)) else Command(token, [])
  }

  /** The name of the represented command. The list is empty only for an
      empty bracket group `()`; its name is then the empty string, which no
      token the tokenizer emits can be. */
  function Head(tokens: seq<string>): string {
    if |tokens| > 0 then tokens[0] else ""
  }

  function WithName(name: string, r: Result<seq<Element>>): (e: Result<Element>)
    ensures e.Ok? <==> r.Ok?
    ensures e.Ok? ==> e.value == Command(name, r.value)
  {
    match r
    case Ok(args) => Ok(Command(name, args))
    case Err(err) => Err(err)
  }

  /** The tree a token list represents. */
  function Parse(tokens: seq<string>): (r: Result<Element>)
    ensures r.Ok? ==> r.value.Command? && r.value.value == Head(tokens)
    decreases Brackets(tokens), 1, 0
  {
    WithName(Head(tokens), ParseFrom(if |tokens| > 0 then tokens[1..] else [], [], [], []))
  }

  /** The sub-token buffer after an opener read at depth `depth`: an inner
      opener is kept as "(" so that the recursive call sees it, and a square
      group starts with an implicit "match". */
  function OpenedBuffer(subexp: seq<string>, depth: nat, opener: string): seq<string> {
    subexp + (if depth >= 1 then ["("] else []) + (if opener == "[" then ["match"] else [])
  }

  lemma OpenedBufferBrackets(subexp: seq<string>, depth: nat, opener: string)
    ensures Brackets(OpenedBuffer(subexp, depth, opener)) == Brackets(subexp) + (if depth >= 1 then 1 else 0)
  {
    BracketsAppend(subexp, if depth >= 1 then ["("] else []);
    BracketsAppend(subexp + (if depth >= 1 then ["("] else []), if opener == "[" then ["match"] else []);
  }

  /** The representer's scan: `rest` is the input not yet read, `stack` the
      open brackets (its length is the depth), `subexp` the tokens collected
      for the group being read, `args` the arguments built so far. */
  function ParseFrom(rest: seq<string>, stack: seq<string>, subexp: seq<string>, args: seq<Element>): Result<seq<Element>>
    decreases Brackets(rest) + Brackets(subexp), 0, |rest|
  {
    if rest == [] then
      if stack != [] then Err(UnfinishedExpression) else Ok(args)
    else
      var token := rest[0];
      if IsOpener(token) then
        OpenedBufferBrackets(subexp, |stack|, token);
        ParseFrom(rest[1..], stack + [token], OpenedBuffer(subexp, |stack|, token), args)
      else if IsCloser(token) then
        if stack == [] || !Closes(stack[|stack| - 1], token) then
          Err(MismatchedParentheses)
        else if |stack| == 1 then
          match Parse(subexp)
          case Ok(e) => ParseFrom(rest[1..], [], [], args + [e])
          case Err(err) => Err(err)
        else
          BracketsAppend(subexp, [")"]);
          ParseFrom(rest[1..], stack[..|stack| - 1], subexp + [")"], args)
      else if |stack| > 0 then
        BracketsAppend(subexp, [token]);
        ParseFrom(rest[1..], stack, subexp + [token], args)
      else
        ParseFrom(rest[1..], stack, subexp, args + [Leaf(token)])
  }

  /** The representer itself: a loop over the tokens that pushes and pops
      the bracket stack, keeps the depth, refills the sub-token buffer and
      appends to the argument list, recursing once per outermost group. */
  method Represent(tokenized: seq<string>) returns (r: Result<Element>)
    ensures r == Parse(tokenized)
    ensures r.Ok? ==> r.value.Command? && r.value.value == Head(tokenized)
    decreases Brackets(tokenized)
  {
    if |tokenized| == 0 {
      return Ok(Command("", []));
    }
    var name := tokenized[0];
    var args: seq<Element> := [];
    var subexp: seq<string> := [];
    var bracketStack: seq<string> := [];
    var depth := 0;
    var i := 1;
    while i < |tokenized|
      invariant 1 <= i <= |tokenized|
      invariant depth == |bracketStack|
      invariant depth == 0 ==> subexp == []
      invariant Brackets(tokenized[i..]) + Brackets(subexp) <= Brackets(tokenized)
      invariant WithName(name, ParseFrom(tokenized[i..], bracketStack, subexp, args)) == Parse(tokenized)
    {
      var token := tokenized[i];
      assert tokenized[i..][0] == token && tokenized[i..][1..] == tokenized[i + 1..];
      ghost var stack0, subexp0, args0 := bracketStack, subexp, args;
      if token == "(" || token == "[" {
        bracketStack := bracketStack + [token];
        if depth >= 1 {
          subexp := subexp + ["("];
        }
        if token == "[" {
          subexp := subexp + ["match"];
        }
        depth := depth + 1;
        assert subexp == OpenedBuffer(subexp0, |stack0|, token);
        OpenedBufferBrackets(subexp0, |stack0|, token);
        assert ParseFrom(tokenized[i..], stack0, subexp0, args0) == ParseFrom(tokenized[i + 1..], bracketStack, subexp, args);
      } else if token == ")" || token == "]" {
        if |bracketStack| == 0 {
          return Err(MismatchedParentheses);
        }
        ghost var old_stack := bracketStack;
        var popped := bracketStack[|bracketStack| - 1];
        bracketStack := bracketStack[..|bracketStack| - 1];
        var bracketOk := false;
        if popped == "(" && token == ")" {
          bracketOk := true;
        } else if popped == "[" && token == "]" {
          bracketOk := true;
        }
        if !bracketOk {
          return Err(MismatchedParentheses);
        }
        depth := depth - 1;
        assert Closes(popped, token);
        if depth == 0 {
          var sub := Represent(subexp);
          if sub.Err? {
            return Err(sub.error);
          }
          assert ParseFrom(tokenized[i..], old_stack, subexp, args) == ParseFrom(tokenized[i + 1..], [], [], args + [sub.value]);
          args := args + [sub.value];
          subexp := [];
        } else if depth >= 1 {
          BracketsAppend(subexp, [")"]);
          subexp := subexp + [")"];
          assert ParseFrom(tokenized[i..], stack0, subexp0, args0) == ParseFrom(tokenized[i + 1..], bracketStack, subexp, args);
        }
      } else if depth > 0 {
        BracketsAppend(subexp, [token]);
        subexp := subexp + [token];
        assert ParseFrom(tokenized[i..], stack0, subexp0, args0) == ParseFrom(tokenized[i + 1..], bracketStack, subexp, args);
      } else {
        args := args + [Leaf(token)];
        assert ParseFrom(tokenized[i..], stack0, subexp0, args0) == ParseFrom(tokenized[i + 1..], bracketStack, subexp, args);
      }
      i := i + 1;
    }

    if |bracketStack| != 0 {
      return Err(UnfinishedExpression);
    }
    r := Ok(Command(name, args));
  }
}
