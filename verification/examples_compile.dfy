/** Worked compilations of whole source texts, each proved from the round
    trip and the emitter's rules. */
module CompileExamples {
  import opened Outcome
  import opened Elements
  import opened Tokenizer
  import opened TokenizerLemmas
  import opened RepresenterLemmas
  import opened Escaping
  import opened Emitter
  import opened EmitterLemmas
  import opened Pipeline
  import opened BracketNesting

  function AnchoredTree(): Element {
    Command("match", [Command("begin", []), Literal("a"), Command("end", [])])
  }

  /** `begin 'a' end` anchors a literal at both ends. */
  lemma AnchoredLiteral()
    ensures Compile("begin 'a' end") == Ok("^a$")
  {
    AnchoredPrinted();
    AnchoredEmitted();
    CompilePrinted(AnchoredTree().args);
  }

  lemma AnchoredPrinted()
    ensures Printable(AnchoredTree())
    ensures Unlex(ArgsTokens(AnchoredTree(), 0)) == "begin 'a' end"
  {
    AnchoredTokens();
    AnchoredSpelled();
  }

  lemma AnchoredTokens()
    ensures Printable(AnchoredTree())
    ensures ArgsTokens(AnchoredTree(), 0) == ["begin", "'a'", "end"]
  {
    var e := AnchoredTree();
    assert IsBareWord("begin") && IsBareWord("end");
    assert ArgsTokens(e, 2) == ["end"];
    assert "'" + "a" + "'" == "'a'";
    assert ArgsTokens(e, 1) == ["'a'", "end"];
  }

  lemma AnchoredSpelled()
    ensures Unlex(["begin", "'a'", "end"]) == "begin 'a' end"
  {
    AnchoredTail();
    assert Spell("begin") == "begin";
    UnlexCons("begin", ["'a'", "end"]);
  }

  lemma AnchoredTail()
    ensures Unlex(["'a'", "end"]) == "'a' end"
  {
    QuotedWord("a");
    assert "'" + "a" + "'" == "'a'";
    assert Spell("'a'") == "'a'";
    assert Spell("end") == "end";
    assert Unlex(["end"]) == "end";
    UnlexCons("'a'", ["end"]);
  }

  lemma AnchoredEmitted()
    ensures Emit(AnchoredTree()) == Ok("^a$")
  {
    var e := AnchoredTree();
    assert Emit(Command("begin", [])) == Ok("^");
    PlainEscape("a");
    assert Emit(Command("end", [])) == Ok("$");
    JoinStep(e, "", 0, 0, "", "^");
    JoinStep(e, "", 0, 1, "^", "a");
    JoinStep(e, "", 0, 2, "^a", "$");
    assert "" + "" + "^" == "^" && "^" + "" + "a" == "^a" && "^a" + "" + "$" == "^a$";
  }

  /** The argument loop past the last argument. */
  lemma JoinDone(e: Element, sep: string, start: nat, acc: string)
    requires e.Command?
    ensures Join(e, sep, start, |e.args|, acc) == Ok(acc)
  {
  }

  /** A count applies to the arguments after it, with no group written
      around them. */
  lemma Repeat()
    ensures Emit(Command("times", [Command("3", []), Literal("ab")])) == Ok("ab{3}")
  {
    var t := Command("times", [Command("3", []), Literal("ab")]);
    RepeatAccepted();
    EmitRepeat("times", t.args);
    RepeatJoined();
    assert ArgText(t.args, 0) == "3";
    assert "ab" + ("{" + "3" + "}") == "ab{3}";
  }

  lemma RepeatAccepted()
    ensures Accepts("times", [Command("3", []), Literal("ab")])
  {
    assert LooksLikeInteger("3");
  }

  lemma RepeatJoined()
    ensures Join(Command("times", [Command("3", []), Literal("ab")]), "", 1, 1, "") == Ok("ab")
  {
    var t := Command("times", [Command("3", []), Literal("ab")]);
    PlainEscape("ab");
    JoinStep(t, "", 1, 1, "", "ab");
    JoinDone(t, "", 1, "" + "" + "ab");
    assert "" + "" + "ab" == "ab";
  }

  function BracketedTree(): Element {
    Command("match", [Command("times", [Command("3", []), Literal("ab")])])
  }

  /** `( times 3 'ab' )` repeats the literal three times. */
  lemma RepeatBracketed()
    ensures Compile("( times 3 'ab' )") == Ok("ab{3}")
  {
    BracketedPrinted();
    BracketedEmitted();
    CompilePrinted(BracketedTree().args);
  }

  lemma BracketedPrinted()
    ensures Printable(BracketedTree())
    ensures Unlex(ArgsTokens(BracketedTree(), 0)) == "( times 3 'ab' )"
  {
    BracketedTokens();
    BracketedSpelled();
  }

  lemma BracketedSpelled()
    ensures Unlex(["(", "times", "3", "'ab'", ")"]) == "( times 3 'ab' )"
  {
    BracketedTail();
    assert Spell("(") == "(" && Spell("times") == "times";
    UnlexCons("times", ["3", "'ab'", ")"]);
    assert Unlex(["times", "3", "'ab'", ")"]) == "times 3 'ab' )";
    UnlexCons("(", ["times", "3", "'ab'", ")"]);
  }

  lemma BracketedTail()
    ensures Unlex(["3", "'ab'", ")"]) == "3 'ab' )"
  {
    QuotedWord("ab");
    assert "'" + "ab" + "'" == "'ab'";
    assert Spell("'ab'") == "'ab'";
    assert Spell(")") == ")" && Spell("3") == "3";
    assert Unlex([")"]) == ")";
    UnlexCons("'ab'", [")"]);
    assert Unlex(["'ab'", ")"]) == "'ab' )";
    UnlexCons("3", ["'ab'", ")"]);
  }

  /** The spelling of a token list of two or more tokens. */
  lemma UnlexCons(t: string, ts: seq<string>)
    requires ts != []
    ensures Unlex([t] + ts) == Spell(t) + " " + Unlex(ts)
  {
    assert ([t] + ts)[1..] == ts;
  }

  lemma BracketedTokens()
    ensures Printable(BracketedTree())
    ensures ArgsTokens(BracketedTree(), 0) == ["(", "times", "3", "'ab'", ")"]
  {
    var e := BracketedTree();
    var t := e.args[0];
    assert IsBareWord("times") && IsBareWord("3");
    assert "'" + "ab" + "'" == "'ab'";
    assert ArgsTokens(t, 1) == ["'ab'"];
    assert ArgsTokens(t, 0) == ["3", "'ab'"];
    assert ArgTokens(t) == ["(", "times", "3", "'ab'", ")"];
    assert ArgsTokens(e, 0) == ArgTokens(t) + [];
  }

  lemma BracketedEmitted()
    ensures Emit(BracketedTree()) == Ok("ab{3}")
  {
    var e := BracketedTree();
    Repeat();
    assert "" + "" + "ab{3}" == "ab{3}";
    assert Join(e, "", 0, 0, "") == Join(e, "", 0, 1, "ab{3}");
  }

  function UnbracketedTree(): Element {
    Command("match", [Command("times", []), Command("3", []), Literal("ab")])
  }

  /** Without brackets, `times` is a command of its own with no
      arguments, and fails. */
  lemma RepeatNeedsBrackets()
    ensures Compile("times 3 'ab'") == Err(TooFewArgs("times", 2, 0))
  {
    UnbracketedPrinted();
    UnbracketedEmitted();
    CompilePrinted(UnbracketedTree().args);
  }

  lemma UnbracketedPrinted()
    ensures Printable(UnbracketedTree())
    ensures Unlex(ArgsTokens(UnbracketedTree(), 0)) == "times 3 'ab'"
  {
    UnbracketedTokens();
    QuotedWord("ab");
    assert "'" + "ab" + "'" == "'ab'";
    assert Spell("'ab'") == "'ab'";
    assert Unlex(["'ab'"]) == "'ab'";
    assert Unlex(["3", "'ab'"]) == "3 'ab'";
  }

  lemma UnbracketedTokens()
    ensures Printable(UnbracketedTree())
    ensures ArgsTokens(UnbracketedTree(), 0) == ["times", "3", "'ab'"]
  {
    var e := UnbracketedTree();
    assert IsBareWord("times") && IsBareWord("3");
    assert "'" + "ab" + "'" == "'ab'";
    assert ArgsTokens(e, 2) == ["'ab'"];
    assert ArgsTokens(e, 1) == ["3", "'ab'"];
  }

  lemma UnbracketedEmitted()
    ensures Emit(UnbracketedTree()) == Err(TooFewArgs("times", 2, 0))
  {
    var e := UnbracketedTree();
    assert Emit(Command("times", [])) == Err(TooFewArgs("times", 2, 0));
  }

  /** Alternatives are joined by `|` inside a non-capturing group. */
  lemma Alternatives()
    ensures Emit(Command("or", [Literal("cat"), Literal("dog")])) == Ok("(?:cat|dog)")
  {
    var t := Command("or", [Literal("cat"), Literal("dog")]);
    assert Accepts("or", t.args);
    JoinedEmit("or", t.args, Frame("(?:", "|", ")"));
    AlternativesJoined();
    assert "(?:cat|dog" + ")" == "(?:cat|dog)";
  }

  lemma AlternativesJoined()
    ensures Join(Command("or", [Literal("cat"), Literal("dog")]), "|", 0, 0, "(?:") == Ok("(?:cat|dog")
  {
    var t := Command("or", [Literal("cat"), Literal("dog")]);
    PlainEscape("cat");
    PlainEscape("dog");
    JoinStep(t, "|", 0, 0, "(?:", "cat");
    JoinStep(t, "|", 0, 1, "(?:" + "" + "cat", "dog");
    JoinDone(t, "|", 0, "(?:" + "" + "cat" + "|" + "dog");
    assert "(?:" + "" + "cat" + "|" + "dog" == "(?:cat|dog";
  }

  /** A range is written as a character class. */
  lemma CharacterRange()
    ensures Emit(Command("range", [Literal("a"), Literal("z")])) == Ok("[a-z]")
  {
    var t := Command("range", [Literal("a"), Literal("z")]);
    assert Accepts("range", t.args);
    JoinedEmit("range", t.args, Frame("[", "-", "]"));
    PlainEscape("a");
    PlainEscape("z");
    JoinStep(t, "-", 0, 0, "[", "a");
    JoinStep(t, "-", 0, 1, "[" + "" + "a", "z");
    JoinDone(t, "-", 0, "[" + "" + "a" + "-" + "z");
    assert "[" + "" + "a" + "-" + "z" + "]" == "[a-z]";
  }

  /** A range needs exactly two ends. */
  lemma RangeNeedsTwoEnds()
    ensures Emit(Command("range", [Literal("a")])) == Err(ArgCountMismatch("range", 2, 1))
  {
  }

  /** A command alone inside `match` writes its own pattern. */
  lemma SoleArgument(t: Element, x: string)
    requires Emit(t) == Ok(x)
    ensures Emit(Command("match", [t])) == Ok(x)
  {
    var e := Command("match", [t]);
    assert "" + "" + x == x;
    assert Join(e, "", 0, 0, "") == Join(e, "", 0, 1, x);
  }

  function RangeTree(): Element {
    Command("match", [Command("range", [Literal("a"), Literal("z")])])
  }

  /** `( range 'a' 'z' )` compiles to a character class. */
  lemma RangeBracketed()
    ensures Compile("( range 'a' 'z' )") == Ok("[a-z]")
  {
    RangePrinted();
    CharacterRange();
    SoleArgument(RangeTree().args[0], "[a-z]");
    CompilePrinted(RangeTree().args);
  }

  lemma RangePrinted()
    ensures Printable(RangeTree())
    ensures Unlex(ArgsTokens(RangeTree(), 0)) == "( range 'a' 'z' )"
  {
    RangeTokens();
    RangeSpelled();
  }

  lemma RangeTokens()
    ensures Printable(RangeTree())
    ensures ArgsTokens(RangeTree(), 0) == ["(", "range", "'a'", "'z'", ")"]
  {
    var e := RangeTree();
    var t := e.args[0];
    assert IsBareWord("range");
    assert "'" + "a" + "'" == "'a'" && "'" + "z" + "'" == "'z'";
    assert ArgsTokens(t, 1) == ["'z'"];
    assert ArgsTokens(t, 0) == ["'a'", "'z'"];
    assert ArgTokens(t) == ["(", "range", "'a'", "'z'", ")"];
    assert ArgsTokens(e, 0) == ArgTokens(t) + [];
  }

  lemma RangeSpelled()
    ensures Unlex(["(", "range", "'a'", "'z'", ")"]) == "( range 'a' 'z' )"
  {
    RangeTail();
    assert Spell("(") == "(" && Spell("range") == "range";
    UnlexCons("range", ["'a'", "'z'", ")"]);
    assert Unlex(["range", "'a'", "'z'", ")"]) == "range 'a' 'z' )";
    UnlexCons("(", ["range", "'a'", "'z'", ")"]);
  }

  lemma RangeTail()
    ensures Unlex(["'a'", "'z'", ")"]) == "'a' 'z' )"
  {
    QuotedTail("a", "z", "'a'", "'z'", "'a' 'z' )");
  }


  function OrTree(): Element {
    Command("match", [Command("or", [Literal("cat"), Literal("dog")])])
  }

  /** `( or 'cat' 'dog' )` compiles to a group of alternatives. */
  lemma OrBracketed()
    ensures Compile("( or 'cat' 'dog' )") == Ok("(?:cat|dog)")
  {
    OrPrinted();
    Alternatives();
    SoleArgument(OrTree().args[0], "(?:cat|dog)");
    CompilePrinted(OrTree().args);
  }

  lemma OrPrinted()
    ensures Printable(OrTree())
    ensures Unlex(ArgsTokens(OrTree(), 0)) == "( or 'cat' 'dog' )"
  {
    OrTokens();
    OrSpelled();
  }

  lemma OrTokens()
    ensures Printable(OrTree())
    ensures ArgsTokens(OrTree(), 0) == ["(", "or", "'cat'", "'dog'", ")"]
  {
    var e := OrTree();
    var t := e.args[0];
    assert IsBareWord("or");
    assert "'" + "cat" + "'" == "'cat'" && "'" + "dog" + "'" == "'dog'";
    assert ArgsTokens(t, 1) == ["'dog'"];
    assert ArgsTokens(t, 0) == ["'cat'", "'dog'"];
    assert ArgTokens(t) == ["(", "or", "'cat'", "'dog'", ")"];
    assert ArgsTokens(e, 0) == ArgTokens(t) + [];
  }

  lemma OrSpelled()
    ensures Unlex(["(", "or", "'cat'", "'dog'", ")"]) == "( or 'cat' 'dog' )"
  {
    OrTail();
    assert Spell("(") == "(" && Spell("or") == "or";
    UnlexCons("or", ["'cat'", "'dog'", ")"]);
    assert Unlex(["or", "'cat'", "'dog'", ")"]) == "or 'cat' 'dog' )";
    UnlexCons("(", ["or", "'cat'", "'dog'", ")"]);
  }

  lemma OrTail()
    ensures Unlex(["'cat'", "'dog'", ")"]) == "'cat' 'dog' )"
  {
    QuotedTail("cat", "dog", "'cat'", "'dog'", "'cat' 'dog' )");
  }

  /** Two quoted tokens and a closer, spelled. */
  lemma QuotedTail(v: string, w: string, t: string, u: string, text: string)
    requires '\'' !in v && t == "'" + v + "'"
    requires '\'' !in w && u == "'" + w + "'"
    requires text == t + " " + u + " " + ")"
    ensures Unlex([t, u, ")"]) == text
  {
    UnlexClosed(t, u);
    QuotedSpelled(v, t);
    QuotedSpelled(w, u);
  }

  /** A command word and two quoted tokens, spelled. */
  lemma NamedPair(n: string, v: string, w: string, t: string, u: string, text: string)
    requires !IsQuotedToken(n)
    requires '\'' !in v && t == "'" + v + "'"
    requires '\'' !in w && u == "'" + w + "'"
    requires text == n + " " + t + " " + u
    ensures Unlex([n, t, u]) == text
  {
    assert [n, t, u][1..] == [t, u] && [t, u][1..] == [u];
    QuotedSpelled(v, t);
    QuotedSpelled(w, u);
    assert Unlex([t, u]) == t + " " + u;
    assert Unlex([n, t, u]) == n + " " + (t + " " + u);
  }

  /** The spelling of two tokens and a closer. */
  lemma UnlexClosed(a: string, b: string)
    ensures Unlex([a, b, ")"]) == Spell(a) + " " + Spell(b) + " " + ")"
  {
    assert [a, b, ")"][1..] == [b, ")"] && [b, ")"][1..] == [")"];
    assert Spell(")") == ")";
    assert Unlex([b, ")"]) == Spell(b) + " " + ")";
    assert Unlex([a, b, ")"]) == Spell(a) + " " + (Spell(b) + " " + ")");
  }

  /** A quoted token written as a literal string is spelled as it is. */
  lemma QuotedSpelled(w: string, t: string)
    requires '\'' !in w && t == "'" + w + "'"
    ensures Spell(t) == t
  {
    QuotedWord(w);
  }


  function LooseRangeTree(): Element {
    Command("match", [Command("range", []), Literal("a"), Literal("z")])
  }

  /** Without brackets, `range` has no arguments of its own, and fails. */
  lemma RangeNeedsBrackets()
    ensures Compile("range 'a' 'z'") == Err(ArgCountMismatch("range", 2, 0))
  {
    LooseRangePrinted();
    assert Emit(Command("range", [])) == Err(ArgCountMismatch("range", 2, 0));
    CompilePrinted(LooseRangeTree().args);
  }

  lemma LooseRangePrinted()
    ensures Printable(LooseRangeTree())
    ensures Unlex(ArgsTokens(LooseRangeTree(), 0)) == "range 'a' 'z'"
  {
    LooseRangeTokens();
    NamedPair("range", "a", "z", "'a'", "'z'", "range 'a' 'z'");
  }

  lemma LooseRangeTokens()
    ensures Printable(LooseRangeTree())
    ensures ArgsTokens(LooseRangeTree(), 0) == ["range", "'a'", "'z'"]
  {
    var e := LooseRangeTree();
    assert IsBareWord("range");
    assert "'" + "a" + "'" == "'a'" && "'" + "z" + "'" == "'z'";
    assert ArgsTokens(e, 2) == ["'z'"];
    assert ArgsTokens(e, 1) == ["'a'", "'z'"];
  }


  /** A parenthesised group must open with a command word: `( ( a ) )`
      fails even though its brackets match. */
  lemma GroupOfGroupFails()
    ensures Compile("( ( a ) )") == Err(MismatchedParentheses)
  {
    var ts := ["(", "(", "a", ")", ")"];
    assert forall t <- ts :: WellShaped(t);
    NestedSpelled();
    TokensAfterMatch(ts);
    GroupNeedsName();
  }

  lemma NestedSpelled()
    ensures Unlex(["(", "(", "a", ")", ")"]) == "( ( a ) )"
  {
    assert Spell("(") == "(" && Spell(")") == ")" && Spell("a") == "a";
    assert Unlex([")"]) == ")";
    UnlexCons(")", [")"]);
    UnlexCons("a", [")", ")"]);
    UnlexCons("(", ["a", ")", ")"]);
    UnlexCons("(", ["(", "a", ")", ")"]);
  }

  /** An empty group `( )` is represented as a command with the empty name,
      which the emitter does not know. */
  lemma EmptyGroupFails()
    ensures Compile("( )") == Err(UnknownCommand(""))
  {
    var tree := Command("match", [Command("", [])]);
    EmptyGroupTokens();
    EmptyGroupRead();
    EmptyGroupEmitted();
    assert Compile("( )") == Emit(tree);
  }

  lemma EmptyGroupTokens()
    ensures Tokens("match " + "( )") == Ok(["match", "(", ")"])
  {
    var ts := ["(", ")"];
    assert forall t <- ts :: WellShaped(t);
    assert Spell("(") == "(" && Spell(")") == ")";
    assert Unlex([")"]) == ")";
    UnlexCons("(", [")"]);
    assert "(" + " " + ")" == "( )";
    assert Unlex(ts) == "( )";
    TokensAfterMatch(ts);
    assert ["match"] + ts == ["match", "(", ")"];
  }

  lemma EmptyGroupEmitted()
    ensures Emit(Command("match", [Command("", [])])) == Err(UnknownCommand(""))
  {
    var e := Command("match", [Command("", [])]);
    assert Emit(Command("", [])) == Err(UnknownCommand(""));
    assert Join(e, "", 0, 0, "") == Err(UnknownCommand(""));
  }

  /** A literal's special characters are escaped. */
  lemma EscapedDot()
    ensures Emit(Literal("a.b")) == Ok("a\\.b")
  {
    assert "a.b"[1..] == ".b" && ".b"[1..] == "b" && "b"[1..] == [];
    assert IsSpecial('.') && !IsSpecial('a') && !IsSpecial('b');
    assert Escape("b") == "b";
    assert Escape(".b") == "\\." + "b" == "\\.b";
    assert Escape("a.b") == "a" + "\\.b" == "a\\.b";
  }

  /** A quoted word without quotes in it is spelled as it is. */
  lemma QuotedWord(w: string)
    requires '\'' !in w
    ensures Spell("'" + w + "'") == "'" + w + "'"
  {
    var t := "'" + w + "'";
    assert t[1..|t| - 1] == w;
    NoDelimiterDouble(w);
  }

  lemma {:induction false} NoDelimiterDouble(w: string)
    requires '\'' !in w
    ensures Double('\'', w) == w
    decreases |w|
  {
    if w != [] {
      assert w[0] != '\'';
      assert '\'' !in w[1..];
      NoDelimiterDouble(w[1..]);
      assert [w[0]] + w[1..] == w;
    }
  }

  /** A literal without special characters is written as it is. */
  lemma PlainEscape(w: string)
    requires forall k :: 0 <= k < |w| ==> 'a' <= w[k] <= 'z'
    ensures Emit(Literal(w)) == Ok(w)
  {
    PlainEscapeText(w);
  }

  lemma {:induction false} PlainEscapeText(w: string)
    requires forall k :: 0 <= k < |w| ==> 'a' <= w[k] <= 'z'
    ensures Escape(w) == w
    decreases |w|
  {
    if w != [] {
      assert !IsSpecial(w[0]);
      PlainEscapeText(w[1..]);
      assert [w[0]] + w[1..] == w;
    }
  }
}
