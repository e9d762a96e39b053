/** Every pattern the emitter writes is well nested: read left to right,
    with a backslash taking the character after it as plain text, its
    groups `( )`, classes `[ ]` and count braces `{ }` open and close in
    matching pairs. In particular no literal text can open or close one. */
module Nesting {
  import opened Outcome
  import opened Elements
  import opened Escaping
  import opened Emitter
  import opened EmitterLemmas

  predicate IsOpen(c: char) {
    c == '(' || c == '[' || c == '{'
  }

  predicate IsClose(c: char) {
    c == ')' || c == ']' || c == '}'
  }

  /** The opening delimiter a closing one pairs with. */
  function Partner(c: char): char {
    if c == ')' then '(' else if c == ']' then '[' else '{'
  }

  /** The delimiters still open after reading `p` with `stack` open, or
      None when a closer does not match or a backslash ends the text. */
  function Nest(p: string, stack: seq<char>): Option<seq<char>>
    decreases |p|
  {
    if p == [] then Some(stack)
    else if p[0] == '\\' then
      if |p| >= 2 then Nest(p[2..], stack) else None
    else if IsOpen(p[0]) then Nest(p[1..], stack + [p[0]])
    else if IsClose(p[0]) then
      if stack != [] && stack[|stack| - 1] == Partner(p[0]) then Nest(p[1..], stack[..|stack| - 1]) else None
    else Nest(p[1..], stack)
  }

  predicate Balanced(p: string) {
    Nest(p, []) == Some([])
  }

  /** Reading a concatenation: once `a` is read, `b` is read from where
      `a` left the stack. */
  lemma {:induction false} NestAppend(a: string, b: string, stack: seq<char>, after: seq<char>)
    requires Nest(a, stack) == Some(after)
    ensures Nest(a + b, stack) == Nest(b, after)
    decreases |a|
  {
    if a == [] {
      assert a + b == b;
    } else if a[0] == '\\' {
      assert (a + b)[0] == '\\' && (a + b)[2..] == a[2..] + b;
      NestAppend(a[2..], b, stack, after);
    } else {
      assert (a + b)[0] == a[0] && (a + b)[1..] == a[1..] + b;
      if IsOpen(a[0]) {
        NestAppend(a[1..], b, stack + [a[0]], after);
      } else if IsClose(a[0]) {
        NestAppend(a[1..], b, stack[..|stack| - 1], after);
      } else {
        NestAppend(a[1..], b, stack, after);
      }
    }
  }

  /** What is already open below does not change how a text reads. */
  lemma {:induction false} NestUnder(p: string, below: seq<char>, stack: seq<char>, after: seq<char>)
    requires Nest(p, stack) == Some(after)
    ensures Nest(p, below + stack) == Some(below + after)
    decreases |p|
  {
    if p != [] {
      if p[0] == '\\' {
        NestUnder(p[2..], below, stack, after);
      } else if IsOpen(p[0]) {
        assert below + stack + [p[0]] == below + (stack + [p[0]]);
        NestUnder(p[1..], below, stack + [p[0]], after);
      } else if IsClose(p[0]) {
        assert (below + stack)[..|below + stack| - 1] == below + stack[..|stack| - 1];
        NestUnder(p[1..], below, stack[..|stack| - 1], after);
      } else {
        NestUnder(p[1..], below, stack, after);
      }
    }
  }

  lemma BalancedAnywhere(p: string, stack: seq<char>)
    requires Balanced(p)
    ensures Nest(p, stack) == Some(stack)
  {
    NestUnder(p, stack, [], []);
    assert stack + [] == stack;
  }

  lemma BalancedConcat(a: string, b: string)
    requires Balanced(a) && Balanced(b)
    ensures Balanced(a + b)
  {
    NestAppend(a, b, [], []);
  }

  /** An escaped literal opens and closes nothing. */
  lemma {:induction false} EscapeBalanced(s: string, stack: seq<char>)
    ensures Nest(Escape(s), stack) == Some(stack)
    decreases s
  {
    if s != [] {
      EscapeBalanced(s[1..], stack);
      var t := Escape(s);
      if IsSpecial(s[0]) {
        assert t[0] == '\\' && t[2..] == Escape(s[1..]);
      } else {
        assert !IsOpen(s[0]) && !IsClose(s[0]) && s[0] != '\\';
        assert t[0] == s[0] && t[1..] == Escape(s[1..]);
      }
    }
  }

  /** Text without backslashes or delimiters, such as a count. */
  predicate Plain(s: string) {
    forall k :: 0 <= k < |s| ==> s[k] != '\\' && !IsOpen(s[k]) && !IsClose(s[k])
  }

  lemma {:induction false} PlainBalanced(s: string, stack: seq<char>)
    requires Plain(s)
    ensures Nest(s, stack) == Some(stack)
    decreases |s|
  {
    if s != [] {
      assert s[0] != '\\' && !IsOpen(s[0]) && !IsClose(s[0]);
      PlainBalanced(s[1..], stack);
    }
  }

  lemma DigitsPlain(n: string)
    requires LooksLikeInteger(n)
    ensures Plain(n) && Plain(n[1..])
  {
    assert forall k :: 0 <= k < |n| ==> IsDigit(n[k]);
  }

  /** Arguments joined by a separator that is itself balanced. */
  lemma {:induction false} PrefixedBalanced(ps: seq<string>, sep: string)
    requires Balanced(sep) && forall k :: 0 <= k < |ps| ==> Balanced(ps[k])
    ensures Balanced(Prefixed(ps, sep))
    decreases ps
  {
    if ps == [] {
    } else {
      PrefixedBalanced(ps[1..], sep);
      BalancedConcat(sep, ps[0]);
      BalancedConcat(sep + ps[0], Prefixed(ps[1..], sep));
    }
  }

  lemma IntercalateBalanced(ps: seq<string>, sep: string)
    requires Balanced(sep) && forall k :: 0 <= k < |ps| ==> Balanced(ps[k])
    ensures Balanced(Intercalate(ps, sep))
  {
    if ps != [] {
      PrefixedBalanced(ps[1..], sep);
      BalancedConcat(ps[0], Prefixed(ps[1..], sep));
    }
  }

  lemma {:induction false} RendersIndex(xs: seq<Element>, k: nat)
    requires AllRender(xs) && k < |xs|
    ensures Renders(xs)[k] == Emit(xs[k]).value
    decreases k
  {
    if k > 0 {
      AllRenderTail(xs);
      RendersIndex(xs[1..], k - 1);
    }
  }

  /** A frame written around balanced text: the opening leaves `open`
      open, the closing closes exactly those. */
  lemma Wrap(opening: string, body: string, closing: string, open: seq<char>)
    requires Nest(opening, []) == Some(open) && Balanced(body) && Nest(closing, open) == Some([])
    ensures Balanced(opening + body + closing)
  {
    BalancedAnywhere(body, open);
    NestAppend(body, closing, open, open);
    assert Nest(body + closing, open) == Some([]);
    NestAppend(opening, body + closing, [], open);
    assert opening + body + closing == opening + (body + closing);
  }

  /** An opening delimiter followed by plain text. */
  lemma OpenThenPlain(p: string)
    requires |p| >= 1 && IsOpen(p[0]) && Plain(p[1..])
    ensures Nest(p, []) == Some([p[0]])
  {
    PlainBalanced(p[1..], [] + [p[0]]);
    assert [] + [p[0]] == [p[0]];
  }

  /** A closing delimiter followed by plain text. */
  lemma CloseThenPlain(p: string)
    requires |p| >= 1 && IsClose(p[0]) && Plain(p[1..])
    ensures Nest(p, [Partner(p[0])]) == Some([])
  {
    PlainBalanced(p[1..], []);
    assert [Partner(p[0])][..0] == [];
  }

  /** Plain text in braces, such as a count. */
  lemma BracedPlain(mid: string)
    requires Plain(mid)
    ensures Nest("{" + mid + "}", []) == Some([])
  {
    PlainBalanced(mid, ['{']);
    NestAppend(mid, "}", ['{'], ['{']);
    assert ("{" + mid + "}")[1..] == mid + "}";
    assert [] + ['{'] == ['{'];
    assert Nest("}", ['{']) == Some([]);
  }

  /** The delimiters a command's opening text leaves open. */
  function FrameOpens(cmd: string): seq<char> {
    if cmd in {"group", "optional", "zero-or-one", "?", "one-or-more", "+", "zero-or-more", "*", "or", "|"} then ['(']
    else if cmd in {"except", "range"} then ['[']
    else []
  }

  /** The frame of every command the emitter accepts opens and closes in
      matching pairs, and its separator opens and closes nothing. */
  lemma FrameNests(cmd: string, args: seq<Element>)
    requires Accepts(cmd, args)
    ensures Balanced(FrameOf(cmd, ArgText(args, 0), ArgText(args, 1)).sep)
    ensures
      var f := FrameOf(cmd, ArgText(args, 0), ArgText(args, 1));
      Nest(f.open, []) == Some(FrameOpens(cmd)) && Nest(f.close, FrameOpens(cmd)) == Some([])
  {
    var f := FrameOf(cmd, ArgText(args, 0), ArgText(args, 1));
    assert f.sep in {"", "-", "|"};
    assert Plain(f.sep);
    PlainBalanced(f.sep, []);
    if cmd == "group" {
      FrameNestsGroup(cmd, args);
    } else if cmd == "refer" {
      FrameNestsRefer(cmd, args);
    } else if cmd in {"except", "range"} {
      FrameNestsClass(cmd, args);
    } else if cmd in {"optional", "zero-or-one", "?", "one-or-more", "+", "zero-or-more", "*", "or", "|"} {
      FrameNestsQuantifier(cmd, args);
    } else if cmd in {"times", "mintimes", "minmaxtimes"} {
      FrameNestsCount(cmd, args);
    } else {
      FrameNestsAtom(cmd, args);
    }
  }

  lemma FrameNestsGroup(cmd: string, args: seq<Element>)
    requires Accepts(cmd, args) && cmd == "group"
    ensures
      var f := FrameOf(cmd, ArgText(args, 0), ArgText(args, 1));
      Nest(f.open, []) == Some(FrameOpens(cmd)) && Nest(f.close, FrameOpens(cmd)) == Some([])
  {
    var n, m := ArgText(args, 0), ArgText(args, 1);
    var f := FrameOf(cmd, n, m);
    assert f.open == "(" && f.open[0] == '(' && f.open[1..] == [];
    assert [] + ['('] == ['('];
    assert Nest(f.open, []) == Some(['(']);
    assert Nest(f.close, ['(']) == Some([]);
  }

  lemma FrameNestsRefer(cmd: string, args: seq<Element>)
    requires Accepts(cmd, args) && cmd == "refer"
    ensures
      var f := FrameOf(cmd, ArgText(args, 0), ArgText(args, 1));
      Nest(f.open, []) == Some(FrameOpens(cmd)) && Nest(f.close, FrameOpens(cmd)) == Some([])
  {
    var n, m := ArgText(args, 0), ArgText(args, 1);
    var f := FrameOf(cmd, n, m);
    DigitsPlain(n);
    assert f.open == ['\\', n[0]] + n[1..];
    PlainBalanced(n[1..], []);
    assert Nest(f.open, []) == Some([]);
  }

  lemma FrameNestsClass(cmd: string, args: seq<Element>)
    requires Accepts(cmd, args) && cmd in {"except", "range"}
    ensures
      var f := FrameOf(cmd, ArgText(args, 0), ArgText(args, 1));
      Nest(f.open, []) == Some(FrameOpens(cmd)) && Nest(f.close, FrameOpens(cmd)) == Some([])
  {
    var n, m := ArgText(args, 0), ArgText(args, 1);
    var f := FrameOf(cmd, n, m);
    assert f.open[0] == '[' && Plain(f.open[1..]);
    OpenThenPlain(f.open);
    assert Nest(f.close, ['[']) == Some([]);
  }

  lemma FrameNestsQuantifier(cmd: string, args: seq<Element>)
    requires Accepts(cmd, args) && cmd in {"optional", "zero-or-one", "?", "one-or-more", "+", "zero-or-more", "*", "or", "|"}
    ensures
      var f := FrameOf(cmd, ArgText(args, 0), ArgText(args, 1));
      Nest(f.open, []) == Some(FrameOpens(cmd)) && Nest(f.close, FrameOpens(cmd)) == Some([])
  {
    var n, m := ArgText(args, 0), ArgText(args, 1);
    var close :=
      if cmd in {"optional", "zero-or-one", "?"} then ")?"
      else if cmd in {"one-or-more", "+"} then ")+"
      else if cmd in {"zero-or-more", "*"} then ")*"
      else ")";
    var sep := if cmd in {"or", "|"} then "|" else "";
    GroupFrame(cmd, n, m, Frame("(?:", sep, close));
    assert FrameOpens(cmd) == ['('];
    GroupDelimiters(close);
  }

  /** The opening of a non-capturing group and the closings of the
      groups and quantifiers. */
  lemma GroupDelimiters(close: string)
    requires close in {")?", ")+", ")*", ")"}
    ensures Nest("(?:", []) == Some(['(']) && Nest(close, ['(']) == Some([])
  {
    var open := "(?:";
    assert open[0] == '(' && Plain(open[1..]);
    OpenThenPlain(open);
    assert close[0] == ')' && Plain(close[1..]);
    CloseThenPlain(close);
  }

  lemma FrameNestsCount(cmd: string, args: seq<Element>)
    requires Accepts(cmd, args) && cmd in {"times", "mintimes", "minmaxtimes"}
    ensures
      var f := FrameOf(cmd, ArgText(args, 0), ArgText(args, 1));
      Nest(f.open, []) == Some(FrameOpens(cmd)) && Nest(f.close, FrameOpens(cmd)) == Some([])
  {
    var n, m := ArgText(args, 0), ArgText(args, 1);
    DigitsPlain(n);
    if cmd == "minmaxtimes" {
      DigitsPlain(m);
    }
    var mid := if cmd == "times" then n else if cmd == "mintimes" then n + "," else n + "," + m;
    assert Plain(mid);
    CountFrame(cmd, n, m, mid);
    BracedPlain(mid);
    assert Nest("", []) == Some([]);
  }

  /** The counts' frame: nothing before the arguments, the counts in
      braces after them. */
  lemma CountFrame(cmd: string, n: string, m: string, mid: string)
    requires
      || (cmd == "times" && mid == n)
      || (cmd == "mintimes" && mid == n + ",")
      || (cmd == "minmaxtimes" && mid == n + "," + m)
    ensures FrameOf(cmd, n, m) == Frame("", "", "{" + mid + "}") && FrameOpens(cmd) == []
  {
    assert "{" + n + ",}" == "{" + (n + ",") + "}";
    assert "{" + n + "," + m + "}" == "{" + (n + "," + m) + "}";
  }

  /** `match`, the anchors, the any-character and the control escapes. */
  lemma FrameNestsAtom(cmd: string, args: seq<Element>)
    requires Accepts(cmd, args)
    requires !(cmd in {"group", "refer", "except", "range", "optional", "zero-or-one", "?", "one-or-more", "+",
                       "zero-or-more", "*", "or", "|", "times", "mintimes", "minmaxtimes"})
    ensures
      var f := FrameOf(cmd, ArgText(args, 0), ArgText(args, 1));
      Nest(f.open, []) == Some(FrameOpens(cmd)) && Nest(f.close, FrameOpens(cmd)) == Some([])
  {
    var n, m := ArgText(args, 0), ArgText(args, 1);
    var f := FrameOf(cmd, n, m);
    if f.open in {"\\n", "\\r", "\\t"} {
      assert f.open[2..] == [];
      assert Nest(f.open, []) == Some([]);
    } else {
      assert f.open in {"", "^", "$", "."};
      assert Plain(f.open);
      PlainBalanced(f.open, []);
    }
  }

  /** Every pattern the emitter writes is well nested. */
  lemma {:induction false} EmitNests(e: Element)
    requires Emit(e).Ok?
    ensures Balanced(Emit(e).value)
    decreases e
  {
    match e
    case Literal(v) =>
      EscapeBalanced(v, []);
    case Command(cmd, args) =>
      EmitOkIffValid(e);
      EmitEquation(cmd, args);
      var first := RuleOf(cmd).value.first;
      var ps := Renders(args[first..]);
      forall k | 0 <= k < |ps|
        ensures Balanced(ps[k])
      {
        RendersIndex(args[first..], k);
        assert args[first..][k] == args[first + k];
        EmitNests(args[first + k]);
      }
      FrameNests(cmd, args);
      var f := FrameOf(cmd, ArgText(args, 0), ArgText(args, 1));
      IntercalateBalanced(ps, f.sep);
      Wrap(f.open, Intercalate(ps, f.sep), f.close, FrameOpens(cmd));
  }
}
