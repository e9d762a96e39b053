/** The whole compiler as the page drives it: the source text is read as
    the arguments of an implicit `match`, tokenized, represented and
    emitted, and the first stage that fails decides the failure. */
module Pipeline {
  import opened Outcome
  import opened Elements
  import opened Tokenizer
  import opened TokenizerLemmas
  import opened Representer
  import opened RepresenterLemmas
  import opened Emitter
  import opened EmitterLemmas
  import opened Nesting

  /** The pattern a source text compiles to. */
  function Compile(source: string): Result<string> {
    var tokens :- Tokens("match " + source);
    var tree :- Parse(tokens);
    Emit(tree)
  }

  /** The three stages run one after the other. */
  method CompileText(source: string) returns (r: Result<string>)
    ensures r == Compile(source)
    ensures r.Ok? ==> Balanced(r.value)
  {
    var tokens := Tokenize("match " + source);
    if tokens.Err? {
      return Err(tokens.error);
    }
    var tree := Represent(tokens.value);
    if tree.Err? {
      return Err(tree.error);
    }
    r := Process(tree.value);
    if r.Ok? {
      EmitNests(tree.value);
    }
  }

  /** Every pattern the compiler writes is well nested. */
  lemma CompileNests(source: string)
    ensures Compile(source).Ok? ==> Balanced(Compile(source).value)
  {
    var tokens := Tokens("match " + source);
    if tokens.Ok? && Parse(tokens.value).Ok? && Emit(Parse(tokens.value).value).Ok? {
      EmitNests(Parse(tokens.value).value);
    }
  }

  /** The printer writes only well-shaped tokens. */
  lemma {:induction false} ArgTokensWellShaped(a: Element)
    requires Printable(a)
    ensures forall t <- ArgTokens(a) :: WellShaped(t)
    decreases a, 1
  {
    match a
    case Literal(v) =>
      var t := "'" + v + "'";
      assert IsQuotedToken(t);
    case Command(name, args) =>
      if args != [] {
        ArgsTokensWellShaped(a, 0);
        assert IsBracketToken("(") && IsBracketToken(")");
      }
  }

  lemma {:induction false} ArgsTokensWellShaped(e: Element, k: nat)
    requires e.Command? && Printable(e)
    ensures forall t <- ArgsTokens(e, k) :: WellShaped(t)
    decreases e, 0, |e.args| - k
  {
    if k < |e.args| {
      ArgTokensWellShaped(e.args[k]);
      ArgsTokensWellShaped(e, k + 1);
    }
  }

  /** End to end: the printed arguments of a printable tree compile to
      that tree's pattern. */
  lemma CompilePrinted(args: seq<Element>)
    requires Printable(Command("match", args))
    ensures Compile(Unlex(ArgsTokens(Command("match", args), 0))) == Emit(Command("match", args))
  {
    var e := Command("match", args);
    var ts := ArgsTokens(e, 0);
    ArgsTokensWellShaped(e, 0);
    TokensAfterMatch(ts);
    RoundTrip(e);
    assert Flatten(e) == ["match"] + ts;
  }

  /** The source text is read after the word `match`. */
  lemma TokensAfterMatch(ts: seq<string>)
    requires forall t <- ts :: WellShaped(t)
    ensures Tokens("match " + Unlex(ts)) == Ok(["match"] + ts)
  {
    assert "match " + Unlex(ts) == "match" + (" " + Unlex(ts));
    ScanMatchWord(" " + Unlex(ts));
    ScanSpace(Unlex(ts), ["match"]);
    ScanUnlex(ts, [], ["match"]);
    assert Unlex(ts) + [] == Unlex(ts);
  }

  /** The word `match` in front of the source text. */
  lemma ScanMatchWord(r: string)
    requires r == [] || IsWhitespace(r[0])
    ensures Scan("match" + r, Unquoted, [], []) == Scan(r, Unquoted, [], ["match"])
  {
    assert IsBareWord("match");
    assert Spell("match") == "match";
    ScanSpellBare("match", r, []);
    assert [] + ["match"] == ["match"];
  }
}
