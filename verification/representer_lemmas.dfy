/** What the representer promises, stated against a printer that writes a
    tree back out as tokens: a command as its name followed by its
    arguments, a literal as one quoted token, and a command argument that
    has arguments of its own as one parenthesised group. Representing the
    printed tokens rebuilds the tree. */
module RepresenterLemmas {
  import opened Outcome
  import opened Elements
  import opened Representer
  import Tokenizer

  /** A tree the printer can write: every command name is a bare word. */
  predicate Printable(e: Element)
    decreases e
  {
    match e
    case Literal(_) => true
    case Command(name, args) =>
      Tokenizer.IsBareWord(name) && forall k :: 0 <= k < |args| ==> Printable(args[k])
  }

  /** The tokens of one argument. */
  function ArgTokens(a: Element): seq<string>
    decreases a, 1, 0
  {
    match a
    case Literal(v) => ["'" + v + "'"]
    case Command(name, args) =>
      if args == [] then [name] else ["(", name] + ArgsTokens(a, 0) + [")"]
  }

  /** The tokens of the arguments of `e` from index `from` on. */
  function ArgsTokens(e: Element, from: nat): seq<string>
    requires e.Command?
    decreases e, 0, |e.args| - from
  {
    if from >= |e.args| then [] else ArgTokens(e.args[from]) + ArgsTokens(e, from + 1)
  }

  /** The tokens of a whole command: its name, then its arguments. */
  function Flatten(e: Element): seq<string>
    requires e.Command?
  {
    [e.value] + ArgsTokens(e, 0)
  }

  lemma OpenStep(opener: string, rest: seq<string>, stack: seq<string>, subexp: seq<string>, acc: seq<Element>)
    requires IsOpener(opener)
    ensures ParseFrom([opener] + rest, stack, subexp, acc) == ParseFrom(rest, stack + [opener], OpenedBuffer(subexp, |stack|, opener), acc)
  {
    assert ([opener] + rest)[0] == opener && ([opener] + rest)[1..] == rest;
  }

  lemma WordStep(token: string, rest: seq<string>, stack: seq<string>, subexp: seq<string>, acc: seq<Element>)
    requires !IsOpener(token) && !IsCloser(token)
    ensures |stack| > 0 ==> ParseFrom([token] + rest, stack, subexp, acc) == ParseFrom(rest, stack, subexp + [token], acc)
    ensures |stack| == 0 ==> ParseFrom([token] + rest, stack, subexp, acc) == ParseFrom(rest, stack, subexp, acc + [Leaf(token)])
  {
    assert ([token] + rest)[0] == token && ([token] + rest)[1..] == rest;
  }

  lemma CloseStep(closer: string, rest: seq<string>, stack: seq<string>, subexp: seq<string>, acc: seq<Element>)
    requires IsCloser(closer)
    ensures stack == [] || !Closes(stack[|stack| - 1], closer) ==> ParseFrom([closer] + rest, stack, subexp, acc) == Err(MismatchedParentheses)
    ensures |stack| == 1 && Closes(stack[0], closer) && Parse(subexp).Ok? ==>
      ParseFrom([closer] + rest, stack, subexp, acc) == ParseFrom(rest, [], [], acc + [Parse(subexp).value])
    ensures |stack| > 1 && Closes(stack[|stack| - 1], closer) ==>
      ParseFrom([closer] + rest, stack, subexp, acc) == ParseFrom(rest, stack[..|stack| - 1], subexp + [")"], acc)
  {
    assert ([closer] + rest)[0] == closer && ([closer] + rest)[1..] == rest;
  }

  lemma ArgsTokensCons(e: Element, k: nat, rest: seq<string>)
    requires e.Command? && k < |e.args|
    ensures ArgsTokens(e, k) + rest == ArgTokens(e.args[k]) + (ArgsTokens(e, k + 1) + rest)
  {
  }

  /** Inside a bracket group, the tokens of a printable argument pass into
      the sub-token buffer unchanged, and the bracket stack comes back as it
      was. */
  lemma {:induction false} InsideArg(a: Element, rest: seq<string>, stack: seq<string>, subexp: seq<string>, acc: seq<Element>)
    requires Printable(a) && |stack| >= 1
    ensures ParseFrom(ArgTokens(a) + rest, stack, subexp, acc) == ParseFrom(rest, stack, subexp + ArgTokens(a), acc)
    decreases a, 1
  {
    match a
    case Literal(v) =>
      var t := "'" + v + "'";
      assert (ArgTokens(a) + rest)[0] == t && (ArgTokens(a) + rest)[1..] == rest;
    case Command(name, args) =>
      assert name[0] != '(' && name[0] != '[' && name[0] != ')' && name[0] != ']';
      if args == [] {
        assert (ArgTokens(a) + rest)[0] == name && (ArgTokens(a) + rest)[1..] == rest;
      } else {
        var inner := ArgsTokens(a, 0);
        var deeper := stack + ["("];
        assert ArgTokens(a) + rest == ["("] + ([name] + (inner + ([")"] + rest)));
        OpenStep("(", [name] + (inner + ([")"] + rest)), stack, subexp, acc);
        assert OpenedBuffer(subexp, |stack|, "(") == subexp + ["("];
        WordStep(name, inner + ([")"] + rest), deeper, subexp + ["("], acc);
        InsideArgs(a, 0, [")"] + rest, deeper, subexp + ["("] + [name], acc);
        var sub2 := subexp + ["("] + [name] + inner;
        assert deeper[|deeper| - 1] == "(" && deeper[..|deeper| - 1] == stack;
        CloseStep(")", rest, deeper, sub2, acc);
        assert sub2 + [")"] == subexp + ArgTokens(a);
      }
  }

  lemma {:induction false} InsideArgs(e: Element, k: nat, rest: seq<string>, stack: seq<string>, subexp: seq<string>, acc: seq<Element>)
    requires e.Command? && Printable(e) && |stack| >= 1
    ensures ParseFrom(ArgsTokens(e, k) + rest, stack, subexp, acc) == ParseFrom(rest, stack, subexp + ArgsTokens(e, k), acc)
    decreases e, 0, |e.args| - k
  {
    if k >= |e.args| {
      assert ArgsTokens(e, k) + rest == rest;
      assert subexp + ArgsTokens(e, k) == subexp;
    } else {
      ArgsTokensCons(e, k, rest);
      InsideArg(e.args[k], ArgsTokens(e, k + 1) + rest, stack, subexp, acc);
      InsideArgs(e, k + 1, rest, stack, subexp + ArgTokens(e.args[k]), acc);
      assert subexp + ArgTokens(e.args[k]) + ArgsTokens(e, k + 1) == subexp + ArgsTokens(e, k);
    }
  }

  /** Outside every bracket group, the tokens of a printable argument
      become exactly that argument. */
  lemma {:induction false} TopArg(a: Element, rest: seq<string>, acc: seq<Element>)
    requires Printable(a)
    ensures ParseFrom(ArgTokens(a) + rest, [], [], acc) == ParseFrom(rest, [], [], acc + [a])
    decreases a, 3
  {
    match a
    case Literal(v) =>
      var t := "'" + v + "'";
      assert (ArgTokens(a) + rest)[0] == t && (ArgTokens(a) + rest)[1..] == rest;
      assert t[1..|t| - 1] == v;
      assert Leaf(t) == a;
    case Command(name, args) =>
      assert name[0] != '(' && name[0] != '[' && name[0] != ')' && name[0] != ']';
      assert !Tokenizer.IsQuote(name[0]);
      if args == [] {
        assert (ArgTokens(a) + rest)[0] == name && (ArgTokens(a) + rest)[1..] == rest;
        assert Leaf(name) == a;
      } else {
        var inner := ArgsTokens(a, 0);
        assert ArgTokens(a) + rest == ["("] + ([name] + (inner + ([")"] + rest)));
        OpenStep("(", [name] + (inner + ([")"] + rest)), [], [], acc);
        assert [] + ["("] == ["("];
        assert OpenedBuffer([], 0, "(") == [];
        WordStep(name, inner + ([")"] + rest), ["("], [], acc);
        assert [] + [name] == [name];
        InsideArgs(a, 0, [")"] + rest, ["("], [name], acc);
        RoundTrip(a);
        assert [name] + inner == Flatten(a);
        CloseStep(")", rest, ["("], [name] + inner, acc);
        assert ParseFrom([")"] + rest, ["("], [name] + inner, acc) == ParseFrom(rest, [], [], acc + [a]);
      }
  }

  lemma {:induction false} TopArgs(e: Element, k: nat, rest: seq<string>, acc: seq<Element>)
    requires e.Command? && Printable(e) && k <= |e.args|
    ensures ParseFrom(ArgsTokens(e, k) + rest, [], [], acc) == ParseFrom(rest, [], [], acc + e.args[k..])
    decreases e, 1, |e.args| - k
  {
    if k == |e.args| {
      assert ArgsTokens(e, k) + rest == rest;
      assert acc + e.args[k..] == acc;
    } else {
      ArgsTokensCons(e, k, rest);
      TopArg(e.args[k], ArgsTokens(e, k + 1) + rest, acc);
      TopArgs(e, k + 1, rest, acc + [e.args[k]]);
      assert acc + [e.args[k]] + e.args[k + 1..] == acc + e.args[k..];
    }
  }

  /** Round trip: representing the tokens of a printable command gives back
      that command. So the root is a command named by the first token, each
      leaf token becomes one argument in order (a quoted token a literal
      without its quotes, a bare word a command without arguments), and each
      bracket group becomes exactly one argument. */
  lemma {:induction false} RoundTrip(e: Element)
    requires e.Command? && Printable(e)
    ensures Parse(Flatten(e)) == Ok(e)
    decreases e, 2
  {
    var ts := Flatten(e);
    assert ts[1..] == ArgsTokens(e, 0) + [];
    TopArgs(e, 0, [], []);
    assert [] + e.args[0..] == e.args;
  }

  /** A square bracket group becomes one argument: a `match` command over
      the group's contents. */
  lemma SquareGroup(g: Element, rest: seq<string>, acc: seq<Element>)
    requires g.Command? && g.value == "match" && Printable(g)
    ensures ParseFrom(["["] + ArgsTokens(g, 0) + ["]"] + rest, [], [], acc) == ParseFrom(rest, [], [], acc + [g])
  {
    var inner := ArgsTokens(g, 0);
    assert ["["] + inner + ["]"] + rest == ["["] + (inner + (["]"] + rest));
    OpenStep("[", inner + (["]"] + rest), [], [], acc);
    assert [] + ["["] == ["["];
    assert OpenedBuffer([], 0, "[") == ["match"];
    InsideArgs(g, 0, ["]"] + rest, ["["], ["match"], acc);
    RoundTrip(g);
    assert ["match"] + inner == Flatten(g);
    CloseStep("]", rest, ["["], ["match"] + inner, acc);
  }

  /** A closer with no open bracket fails, after any printable prefix. */
  lemma StrayCloser(e: Element, closer: string, rest: seq<string>)
    requires e.Command? && Printable(e) && IsCloser(closer)
    ensures Parse(Flatten(e) + [closer] + rest) == Err(MismatchedParentheses)
  {
    var ts := Flatten(e) + [closer] + rest;
    assert ts[1..] == ArgsTokens(e, 0) + ([closer] + rest);
    TopArgs(e, 0, [closer] + rest, []);
    assert ([closer] + rest)[0] == closer;
  }

  /** After a printable prefix and printable group contents, a closer of
      the other bracket type than the open group fails. */
  lemma WrongCloser(e: Element, opener: string, g: Element, closer: string, rest: seq<string>)
    requires e.Command? && Printable(e) && g.Command? && Printable(g)
    requires IsOpener(opener) && IsCloser(closer) && !Closes(opener, closer)
    ensures Parse(Flatten(e) + [opener] + ArgsTokens(g, 0) + [closer] + rest) == Err(MismatchedParentheses)
  {
    var inner := ArgsTokens(g, 0);
    var ts := Flatten(e) + [opener] + inner + [closer] + rest;
    var after := [opener] + (inner + ([closer] + rest));
    assert ts[1..] == ArgsTokens(e, 0) + after;
    TopArgs(e, 0, after, []);
    var sub := OpenedBuffer([], 0, opener);
    assert [] + e.args[0..] == e.args;
    OpenStep(opener, inner + ([closer] + rest), [], [], e.args);
    assert [] + [opener] == [opener];
    InsideArgs(g, 0, [closer] + rest, [opener], sub, e.args);
    CloseStep(closer, rest, [opener], sub + inner, e.args);
  }

  /** After a printable prefix, a bracket group with printable contents
      left open at the end of the tokens fails. */
  lemma UnclosedGroup(e: Element, opener: string, g: Element)
    requires e.Command? && Printable(e) && g.Command? && Printable(g)
    requires IsOpener(opener)
    ensures Parse(Flatten(e) + [opener] + ArgsTokens(g, 0)) == Err(UnfinishedExpression)
  {
    var inner := ArgsTokens(g, 0);
    var ts := Flatten(e) + [opener] + inner;
    var after := [opener] + inner;
    assert ts[1..] == ArgsTokens(e, 0) + after;
    TopArgs(e, 0, after, []);
    var sub := OpenedBuffer([], 0, opener);
    assert [] + e.args[0..] == e.args;
    OpenStep(opener, inner, [], [], e.args);
    assert [] + [opener] == [opener];
    assert inner + [] == inner;
    InsideArgs(g, 0, [], [opener], sub, e.args);
  }
}
