/** What the representer demands of the brackets it reads: after the first
    token, every closer must find an open bracket of its own type on the
    stack, and nothing may stay open at the end. Input that breaks this
    fails, and with mismatched parentheses when a closer is at fault. */
module BracketNesting {
  import opened Outcome
  import opened Elements
  import opened Representer
  import opened RepresenterLemmas
  import Tokenizer

  /** The brackets still open after reading `ts` with `stack` open, or None
      when a closer finds no open bracket or one of the other type. */
  function TokenNest(ts: seq<string>, stack: seq<string>): Option<seq<string>>
    decreases |ts|
  {
    if ts == [] then Some(stack)
    else if IsOpener(ts[0]) then TokenNest(ts[1..], stack + [ts[0]])
    else if IsCloser(ts[0]) then
      if stack != [] && Closes(stack[|stack| - 1], ts[0]) then TokenNest(ts[1..], stack[..|stack| - 1]) else None
    else TokenNest(ts[1..], stack)
  }

  /** `n` open parentheses: what the sub-token buffer of a group leaves
      open when the group is `n + 1` deep. */
  function Parens(n: nat): (r: seq<string>)
    ensures |r| == n
    ensures forall k :: 0 <= k < n ==> r[k] == "("
  {
    if n == 0 then [] else Parens(n - 1) + ["("]
  }

  /** What holds of the representer's sub-token buffer: empty outside every
      group, and inside a group it leaves one "(" open per inner group being
      read. */
  predicate Buffered(stack: seq<string>, subexp: seq<string>) {
    if stack == [] then subexp == [] else TokenNest(subexp, []) == Some(Parens(|stack| - 1))
  }

  /** Reading a concatenation: `b` is read from where `a` left the stack. */
  lemma {:induction false} TokenNestAppend(a: seq<string>, b: seq<string>, stack: seq<string>)
    ensures TokenNest(a + b, stack) == match TokenNest(a, stack) case Some(s) => TokenNest(b, s) case None => None
    decreases |a|
  {
    if a == [] {
      assert a + b == b;
    } else {
      assert (a + b)[0] == a[0] && (a + b)[1..] == a[1..] + b;
      if IsOpener(a[0]) {
        TokenNestAppend(a[1..], b, stack + [a[0]]);
      } else if IsCloser(a[0]) {
        if stack != [] && Closes(stack[|stack| - 1], a[0]) {
          TokenNestAppend(a[1..], b, stack[..|stack| - 1]);
        }
      } else {
        TokenNestAppend(a[1..], b, stack);
      }
    }
  }

  /** An extra bracket at the bottom of the stack: either it is still open
      at the end, or without it some closer finds nothing to close. */
  lemma {:induction false} TokenNestBelow(ts: seq<string>, o: string, stack: seq<string>, r: seq<string>)
    requires TokenNest(ts, [o] + stack) == Some(r)
    ensures TokenNest(ts, stack).None? || (|r| > 0 && r[0] == o && TokenNest(ts, stack) == Some(r[1..]))
    decreases |ts|
  {
    if ts == [] {
      assert ([o] + stack)[1..] == stack;
    } else if IsOpener(ts[0]) {
      assert [o] + stack + [ts[0]] == [o] + (stack + [ts[0]]);
      TokenNestBelow(ts[1..], o, stack + [ts[0]], r);
    } else if IsCloser(ts[0]) {
      if stack != [] {
        var s := [o] + stack;
        assert s[|s| - 1] == stack[|stack| - 1];
        assert s[..|s| - 1] == [o] + stack[..|stack| - 1];
        TokenNestBelow(ts[1..], o, stack[..|stack| - 1], r);
      }
    } else {
      TokenNestBelow(ts[1..], o, stack, r);
    }
  }

  /** A buffer whose brackets match, read after its first token (the name
      of the command it represents), never leaves a bracket open. */
  lemma AfterName(subexp: seq<string>)
    requires subexp != [] && TokenNest(subexp, []) == Some([])
    ensures TokenNest(subexp[1..], []) == None || TokenNest(subexp[1..], []) == Some([])
  {
    if IsOpener(subexp[0]) {
      assert [] + [subexp[0]] == [subexp[0]] + [];
      TokenNestBelow(subexp[1..], subexp[0], [], []);
    }
  }

  lemma BufferOpen(stack: seq<string>, subexp: seq<string>, opener: string)
    requires Buffered(stack, subexp) && IsOpener(opener)
    ensures Buffered(stack + [opener], OpenedBuffer(subexp, |stack|, opener))
  {
    var extra := (if |stack| >= 1 then ["("] else []) + (if opener == "[" then ["match"] else []);
    assert OpenedBuffer(subexp, |stack|, opener) == subexp + extra;
    if stack == [] {
      assert TokenNest(["match"], []) == Some([]);
      assert extra == [] || extra == ["match"];
    } else {
      TokenNestAppend(subexp, extra, []);
      var inner := Parens(|stack| - 1);
      assert inner + ["("] == Parens(|stack|);
      TokenNestAppend(["("], if opener == "[" then ["match"] else [], inner);
    }
  }

  lemma BufferClose(stack: seq<string>, subexp: seq<string>)
    requires |stack| > 1 && Buffered(stack, subexp)
    ensures Buffered(stack[..|stack| - 1], subexp + [")"])
  {
    TokenNestAppend(subexp, [")"], []);
    var open := Parens(|stack| - 1);
    assert open[..|open| - 1] == Parens(|stack| - 2);
  }

  lemma BufferWord(stack: seq<string>, subexp: seq<string>, token: string)
    requires |stack| > 0 && Buffered(stack, subexp) && !IsOpener(token) && !IsCloser(token)
    ensures Buffered(stack, subexp + [token])
  {
    TokenNestAppend(subexp, [token], []);
  }

  /** The representer's scan fails only with a bracket error; it fails with
      an unfinished expression only when the input really leaves a bracket
      open; and it succeeds only when the input's brackets match. */
  lemma {:induction false} ParseFromNests(rest: seq<string>, stack: seq<string>, subexp: seq<string>, args: seq<Element>)
    requires Buffered(stack, subexp)
    ensures ParseFrom(rest, stack, subexp, args).Err? ==>
      ParseFrom(rest, stack, subexp, args).error in {MismatchedParentheses, UnfinishedExpression}
    ensures ParseFrom(rest, stack, subexp, args) == Err(UnfinishedExpression) ==>
      TokenNest(rest, stack).Some? && TokenNest(rest, stack).value != []
    ensures ParseFrom(rest, stack, subexp, args).Ok? ==> TokenNest(rest, stack) == Some([])
    decreases Brackets(rest) + Brackets(subexp), 0, |rest|
  {
    if rest != [] {
      var token := rest[0];
      if IsOpener(token) {
        OpenedBufferBrackets(subexp, |stack|, token);
        BufferOpen(stack, subexp, token);
        ParseFromNests(rest[1..], stack + [token], OpenedBuffer(subexp, |stack|, token), args);
      } else if IsCloser(token) {
        if stack == [] || !Closes(stack[|stack| - 1], token) {
        } else if |stack| == 1 {
          ParseNests(subexp);
          if Parse(subexp).Ok? {
            ParseFromNests(rest[1..], [], [], args + [Parse(subexp).value]);
          } else if subexp != [] {
            AfterName(subexp);
          }
        } else {
          BracketsAppend(subexp, [")"]);
          BufferClose(stack, subexp);
          ParseFromNests(rest[1..], stack[..|stack| - 1], subexp + [")"], args);
        }
      } else if |stack| > 0 {
        BracketsAppend(subexp, [token]);
        BufferWord(stack, subexp, token);
        ParseFromNests(rest[1..], stack, subexp + [token], args);
      } else {
        ParseFromNests(rest[1..], stack, subexp, args + [Leaf(token)]);
      }
    }
  }

  lemma {:induction false} ParseNests(tokens: seq<string>)
    ensures Parse(tokens).Err? ==> Parse(tokens).error in {MismatchedParentheses, UnfinishedExpression}
    ensures Parse(tokens) == Err(UnfinishedExpression) ==>
      var after := if |tokens| > 0 then tokens[1..] else [];
      TokenNest(after, []).Some? && TokenNest(after, []).value != []
    ensures Parse(tokens).Ok? ==> TokenNest(if |tokens| > 0 then tokens[1..] else [], []) == Some([])
    decreases Brackets(tokens), 1, 0
  {
    ParseFromNests(if |tokens| > 0 then tokens[1..] else [], [], [], []);
  }

  /** The representer accepts only token lists whose brackets after the
      first token match, type for type. A closer that finds no open bracket
      or one of the other type makes it fail with mismatched parentheses; a
      bracket left open makes it fail too, with an unfinished expression
      unless a group read before already failed. No other failure occurs. */
  lemma BracketErrors(tokens: seq<string>)
    ensures
      var after := if |tokens| > 0 then tokens[1..] else [];
      && (TokenNest(after, []) != Some([]) ==> Parse(tokens).Err?)
      && (TokenNest(after, []).None? ==> Parse(tokens) == Err(MismatchedParentheses))
      && (Parse(tokens).Err? ==> Parse(tokens).error in {MismatchedParentheses, UnfinishedExpression})
  {
    ParseNests(tokens);
  }

  /** The converse fails: the brackets of `( ( a ) )` match, yet the inner
      group's opener becomes the name of the outer group's command, so its
      closer finds nothing open in the recursive reading. A parenthesised
      group must start with a command word; a square group need not, since
      its opener supplies the word `match`. */
  lemma GroupNeedsName()
    ensures TokenNest(["(", "(", "a", ")", ")"], []) == Some([])
    ensures Parse(["match", "(", "(", "a", ")", ")"]) == Err(MismatchedParentheses)
  {
    NestedBracketsMatch();
    OuterGroupRead();
    assert ["match", "(", "(", "a", ")", ")"][1..] == ["(", "(", "a", ")", ")"];
  }

  lemma NestedBracketsMatch()
    ensures TokenNest(["(", "(", "a", ")", ")"], []) == Some([])
  {
    TokenNestAppend(["(", "("], ["a", ")", ")"], []);
    assert ["(", "("][1..] == ["("] && ["("][1..] == [] && [] + ["("] == ["("] && ["("] + ["("] == ["(", "("];
    assert TokenNest(["("], ["("]) == Some(["(", "("]);
    assert TokenNest(["(", "("], []) == Some(["(", "("]);
    TokenNestAppend(["a"], [")", ")"], ["(", "("]);
    assert TokenNest([")", ")"], ["(", "("]) == Some([]);
    assert ["(", "("] + ["a", ")", ")"] == ["(", "(", "a", ")", ")"];
    assert ["a"] + [")", ")"] == ["a", ")", ")"];
  }

  /** The outer group buffers `( a )` and, at its closer, represents it. */
  lemma OuterGroupRead()
    ensures ParseFrom(["(", "(", "a", ")", ")"], [], [], []) == Err(MismatchedParentheses)
  {
    OuterGroupOpened();
    HeadlessGroup();
    CloseStep(")", [], ["("], ["(", "a", ")"], []);
    CloseStep(")", [")"], ["(", "("], ["(", "a"], []);
    assert ["(", "("][..1] == ["("] && ["(", "a"] + [")"] == ["(", "a", ")"];
    assert [")", ")"] == [")"] + [")"];
  }

  lemma OuterGroupOpened()
    ensures ParseFrom(["(", "(", "a", ")", ")"], [], [], []) == ParseFrom([")", ")"], ["(", "("], ["(", "a"], [])
  {
    WordStep("a", [")", ")"], ["(", "("], ["("], []);
    assert ["("] + ["a"] == ["(", "a"];
    OpenStep("(", ["a", ")", ")"], ["("], [], []);
    assert OpenedBuffer([], 1, "(") == ["("];
    OpenStep("(", ["(", "a", ")", ")"], [], [], []);
    assert OpenedBuffer([], 0, "(") == [] && [] + ["("] == ["("];
    assert ["("] + ["("] == ["(", "("];
    assert ["(", "(", "a", ")", ")"] == ["("] + (["("] + (["a"] + [")", ")"]));
  }

  /** The buffer `( a )` names its command "(", so its closer finds no
      open bracket. */
  lemma HeadlessGroup()
    ensures Parse(["(", "a", ")"]) == Err(MismatchedParentheses)
  {
    var a := [Leaf("a")];
    WordStep("a", [")"], [], [], []);
    CloseStep(")", [], [], [], a);
    assert ["(", "a", ")"][1..] == ["a"] + [")"];
  }

  /** A square group needs no command word of its own: its opener supplies
      `match`, so `[ ( or 'a' ) ]` is read even though it opens with a
      parenthesis. */
  lemma SquareOfGroup()
    ensures Parse(["match", "[", "(", "or", "'a'", ")", "]"])
      == Ok(Command("match", [Command("match", [Command("or", [Literal("a")])])]))
  {
    var g := Command("match", [Command("or", [Literal("a")])]);
    SquareOfGroupTokens();
    SquareGroup(g, [], []);
    assert ["match", "[", "(", "or", "'a'", ")", "]"][1..] == ["["] + ArgsTokens(g, 0) + ["]"] + [];
    assert [] + [g] == [g];
  }

  lemma SquareOfGroupTokens()
    ensures Printable(Command("match", [Command("or", [Literal("a")])]))
    ensures ArgsTokens(Command("match", [Command("or", [Literal("a")])]), 0) == ["(", "or", "'a'", ")"]
  {
    var g := Command("match", [Command("or", [Literal("a")])]);
    var t := g.args[0];
    assert Tokenizer.IsBareWord("or") && Tokenizer.IsBareWord("match");
    assert Printable(t);
    assert "'" + "a" + "'" == "'a'";
    assert ArgsTokens(t, 0) == ["'a'"];
    assert ArgTokens(t) == ["(", "or", "'a'", ")"];
    assert ArgsTokens(g, 0) == ArgTokens(t) + [];
  }

  /** An empty group hands the empty buffer to the recursive reading, which
      names its command with the empty name. */
  lemma EmptyGroupRead()
    ensures Parse(["match", "(", ")"]) == Ok(Command("match", [Command("", [])]))
  {
    OpenStep("(", [")"], [], [], []);
    assert OpenedBuffer([], 0, "(") == [] && [] + ["("] == ["("];
    assert Parse([]) == Ok(Command("", []));
    CloseStep(")", [], ["("], [], []);
    assert [] + [Command("", [])] == [Command("", [])];
    assert ["match", "(", ")"][1..] == ["("] + [")"] && [")"] == [")"] + [];
  }
}
