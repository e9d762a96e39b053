/** What the tokenizer promises, stated against a printer: writing a list of
    well-shaped tokens back out as source text (quoted bodies with their
    delimiters doubled, tokens separated by one space) and scanning it again
    gives back exactly that list. */
module TokenizerLemmas {
  import opened Outcome
  import opened Tokenizer

  /** The body of a quoted token as written in the source: every delimiter
      written twice. */
  function Double(d: char, body: string): (r: string)
    ensures |r| >= |body|
  {
    if body == [] then []
    else (if body[0] == d then [d, d] else [body[0]]) + Double(d, body[1..])
  }

  /** The source spelling of one token. */
  function Spell(t: string): string {
    if IsQuotedToken(t) then [t[0]] + Double(t[0], t[1..|t| - 1]) + [t[0]] else t
  }

  /** The source spelling of a token list, one space between tokens. */
  function Unlex(ts: seq<string>): string {
    if ts == [] then []
    else if |ts| == 1 then Spell(ts[0])
    else Spell(ts[0]) + " " + Unlex(ts[1..])
  }

  /** Inside a quotation, the doubled spelling of a body adds exactly that
      body to the pending word, whatever follows it. */
  lemma {:induction false} ScanDoubled(d: char, body: string, r: string, word: string, acc: seq<string>)
    ensures Scan(Double(d, body) + r, Quoted(d), word, acc) == Scan(r, Quoted(d), word + body, acc)
    decreases body
  {
    if body != [] {
      var c := body[0];
      var tail := Double(d, body[1..]) + r;
      var s := Double(d, body) + r;
      if c == d {
        assert s == [d, d] + tail;
        assert s[0] == d && s[1] == d && s[2..] == tail;
      } else {
        assert s == [c] + tail;
        assert s[0] == c && s[1..] == tail;
      }
      assert Scan(s, Quoted(d), word, acc) == Scan(tail, Quoted(d), word + [c], acc);
      ScanDoubled(d, body[1..], r, word + [c], acc);
      assert word + [c] + body[1..] == word + body;
    } else {
      assert Double(d, body) + r == r && word + body == word;
    }
  }

  /** Outside a quotation, a run of word characters adds itself to the
      pending word. */
  lemma {:induction false} ScanBareRun(w: string, r: string, word: string, acc: seq<string>)
    requires forall k :: 0 <= k < |w| ==> IsWordChar(w[k])
    ensures Scan(w + r, Unquoted, word, acc) == Scan(r, Unquoted, word + w, acc)
    decreases w
  {
    if w != [] {
      assert (w + r)[0] == w[0];
      assert (w + r)[1..] == w[1..] + r;
      ScanBareRun(w[1..], r, word + [w[0]], acc);
      assert word + [w[0]] + w[1..] == word + w;
    } else {
      assert w + r == r && word + w == word;
    }
  }

  /** Scanning the spelling of a quoted token, followed by whitespace or
      the end of input, emits exactly that token. */
  lemma ScanSpellQuoted(t: string, r: string, acc: seq<string>)
    requires IsQuotedToken(t)
    requires r == [] || IsWhitespace(r[0])
    ensures Scan(Spell(t) + r, Unquoted, [], acc) == Scan(r, Unquoted, [], acc + [t])
  {
    var d := t[0];
    var body := t[1..|t| - 1];
    assert t == [d] + body + [d];
    var closing := [d] + r;
    var after := Double(d, body) + closing;
    assert Spell(t) + r == [d] + after;
    ScanQuoteOpen(d, after, acc);
    ScanDoubled(d, body, closing, [d], acc);
    ScanQuoteClose(d, [d] + body, r, acc);
  }

  /** An opening delimiter starts a quotation whose pending word is that
      delimiter. */
  lemma ScanQuoteOpen(d: char, after: string, acc: seq<string>)
    requires IsQuote(d)
    ensures Scan([d] + after, Unquoted, [], acc) == Scan(after, Quoted(d), [d], acc)
  {
    assert ([d] + after)[0] == d && ([d] + after)[1..] == after;
  }

  /** A closing delimiter that is not doubled ends the quoted token. */
  lemma ScanQuoteClose(d: char, word: string, r: string, acc: seq<string>)
    requires IsQuote(d)
    requires r == [] || IsWhitespace(r[0])
    ensures Scan([d] + r, Quoted(d), word, acc) == Scan(r, Unquoted, [], acc + [word + [d]])
  {
    var closing := [d] + r;
    assert closing[0] == d && closing[1..] == r;
    assert !(|closing| > 1 && closing[1] == d);
  }

  /** Scanning a bracket, followed by whitespace or the end of input, emits
      that bracket as a token of its own. */
  lemma ScanSpellBracket(t: string, r: string, acc: seq<string>)
    requires IsBracketToken(t)
    ensures Scan(Spell(t) + r, Unquoted, [], acc) == Scan(r, Unquoted, [], acc + [t])
  {
    var s := Spell(t) + r;
    assert !IsQuotedToken(t);
    assert s == [t[0]] + r;
    assert s[0] == t[0] && s[1..] == r;
    assert t == [t[0]];
  }

  /** Scanning a bare word, followed by whitespace or the end of input,
      emits that word. */
  lemma ScanSpellBare(t: string, r: string, acc: seq<string>)
    requires IsBareWord(t)
    requires r == [] || IsWhitespace(r[0])
    ensures Scan(Spell(t) + r, Unquoted, [], acc) == Scan(r, Unquoted, [], acc + [t])
  {
    assert !IsQuote(t[0]);
    assert Spell(t) == t;
    ScanBareRun(t, r, [], acc);
    assert [] + t == t;
    if r == [] {
      assert Scan(r, Unquoted, t, acc) == Ok(acc + [t]);
    } else {
      assert Scan(r, Unquoted, t, acc) == Scan(r[1..], Unquoted, [], acc + [t]);
      assert Scan(r, Unquoted, [], acc + [t]) == Scan(r[1..], Unquoted, [], acc + [t]);
    }
  }

  lemma ScanSpell(t: string, r: string, acc: seq<string>)
    requires WellShaped(t)
    requires r == [] || IsWhitespace(r[0])
    ensures Scan(Spell(t) + r, Unquoted, [], acc) == Scan(r, Unquoted, [], acc + [t])
  {
    if IsQuotedToken(t) {
      ScanSpellQuoted(t, r, acc);
    } else if IsBracketToken(t) {
      ScanSpellBracket(t, r, acc);
    } else {
      ScanSpellBare(t, r, acc);
    }
  }

  /** Whitespace between tokens emits nothing. */
  lemma ScanSpace(rest: string, acc: seq<string>)
    ensures Scan(" " + rest, Unquoted, [], acc) == Scan(rest, Unquoted, [], acc)
  {
    assert (" " + rest)[0] == ' ' && (" " + rest)[1..] == rest;
  }

  /** One token of a list of at least two, given the rest of the list. */
  lemma ScanUnlexStep(ts: seq<string>, r: string, acc: seq<string>)
    requires |ts| >= 2 && WellShaped(ts[0])
    requires r == [] || IsWhitespace(r[0])
    requires Scan(Unlex(ts[1..]) + r, Unquoted, [], acc + [ts[0]]) == Scan(r, Unquoted, [], acc + [ts[0]] + ts[1..])
    ensures Scan(Unlex(ts) + r, Unquoted, [], acc) == Scan(r, Unquoted, [], acc + ts)
  {
    var rest := Unlex(ts[1..]) + r;
    UnlexStep(ts, r);
    ScanSpellSpace(ts[0], rest, acc);
    assert acc + [ts[0]] + ts[1..] == acc + ts;
  }

  /** A token followed by a space emits that token. */
  lemma ScanSpellSpace(t: string, rest: string, acc: seq<string>)
    requires WellShaped(t)
    ensures Scan(Spell(t) + (" " + rest), Unquoted, [], acc) == Scan(rest, Unquoted, [], acc + [t])
  {
    var tail := " " + rest;
    assert tail[0] == ' ';
    ScanSpell(t, tail, acc);
    ScanSpace(rest, acc + [t]);
  }

  /** The spelling of a list of two or more tokens, followed by `r`. */
  lemma UnlexStep(ts: seq<string>, r: string)
    requires |ts| >= 2
    ensures Unlex(ts) + r == Spell(ts[0]) + (" " + (Unlex(ts[1..]) + r))
  {
    var a := Spell(ts[0]);
    var c := Unlex(ts[1..]);
    assert Unlex(ts) == a + " " + c;
    Associate(a + " ", c, r);
    Associate(a, " ", c + r);
  }

  lemma Associate(a: string, b: string, c: string)
    ensures a + b + c == a + (b + c)
  {
  }

  /** Scanning the spelling of a token list emits that list. */
  lemma {:induction false} ScanUnlex(ts: seq<string>, r: string, acc: seq<string>)
    requires forall t <- ts :: WellShaped(t)
    requires r == [] || IsWhitespace(r[0])
    ensures Scan(Unlex(ts) + r, Unquoted, [], acc) == Scan(r, Unquoted, [], acc + ts)
    decreases ts
  {
    if ts == [] {
      assert Unlex(ts) + r == r;
      assert acc + ts == acc;
    } else if |ts| == 1 {
      assert Unlex(ts) + r == Spell(ts[0]) + r;
      ScanSpell(ts[0], r, acc);
      assert acc + ts == acc + [ts[0]];
    } else {
      ScanUnlex(ts[1..], r, acc + [ts[0]]);
      ScanUnlexStep(ts, r, acc);
    }
  }

  /** Round trip: tokenizing the spelling of any list of well-shaped tokens
      gives back that list. */
  lemma TokensOfUnlex(ts: seq<string>)
    requires forall t <- ts :: WellShaped(t)
    ensures Tokens(Unlex(ts)) == Ok(ts)
  {
    ScanUnlex(ts, [], []);
    assert Unlex(ts) + [] == Unlex(ts);
    assert [] + ts == ts;
  }

  /** Every successful tokenization consists of well-shaped tokens, so the
      round trip above covers every result the tokenizer can produce. */
  lemma TokensWellShaped(s: string)
    ensures Tokens(s).Ok? ==> forall t <- Tokens(s).value :: WellShaped(t) && Tokens(Unlex(Tokens(s).value)) == Tokens(s)
  {
    ScanWellShaped(s, Unquoted, [], []);
    if Tokens(s).Ok? {
      TokensOfUnlex(Tokens(s).value);
    }
  }

  /** Inside a quotation whose delimiter never comes back, the scan fails. */
  lemma {:induction false} ScanOpenQuotation(d: char, rest: string, word: string, acc: seq<string>)
    requires d !in rest
    ensures Scan(rest, Quoted(d), word, acc) == Err(UnfinishedQuotation)
    decreases |rest|
  {
    if rest != [] {
      assert rest[0] != d;
      assert forall k :: 0 <= k < |rest| - 1 ==> rest[1..][k] == rest[k + 1];
      ScanOpenQuotation(d, rest[1..], word + [rest[0]], acc);
    }
  }

  /** A quotation left open at the end of the input makes tokenizing fail
      and yield no tokens, whatever well-formed text precedes it. */
  lemma UnfinishedQuotationFails(ts: seq<string>, d: char, body: string)
    requires forall t <- ts :: WellShaped(t)
    requires IsQuote(d) && d !in body
    ensures Tokens(Unlex(ts) + " " + [d] + body) == Err(UnfinishedQuotation)
  {
    var r := " " + ([d] + body);
    assert Unlex(ts) + " " + [d] + body == Unlex(ts) + r;
    ScanUnlex(ts, r, []);
    assert [] + ts == ts;
    OpenQuotationFails(d, body, ts);
  }

  /** A space, then a quotation that is never closed. */
  lemma OpenQuotationFails(d: char, body: string, acc: seq<string>)
    requires IsQuote(d) && d !in body
    ensures Scan(" " + ([d] + body), Unquoted, [], acc) == Err(UnfinishedQuotation)
  {
    ScanSpace([d] + body, acc);
    ScanQuoteOpen(d, body, acc);
    ScanOpenQuotation(d, body, [d], acc);
  }

  lemma BracketsNeedNoWhitespace()
    ensures Tokens("(a)") == Ok(["(", "a", ")"])
  {
    assert "(a)" == Spell("(") + "a)";
    ScanSpellBracket("(", "a)", []);
    assert [] + ["("] == ["("];
    assert "a)" == "a" + ")";
    ScanBareRun("a", ")", [], ["("]);
    assert [] + "a" == "a";
    assert ")"[0] == ')' && ")"[1..] == [];
    assert Flush(Flush(["("], "a"), ")") == ["(", "a", ")"];
    assert Scan(")", Unquoted, "a", ["("]) == Scan([], Unquoted, [], ["(", "a", ")"]);
  }

  lemma WhitespaceSeparates()
    ensures Tokens(" a  b ") == Ok(["a", "b"])
  {
    assert " a  b " == " " + "a  b ";
    ScanSpace("a  b ", []);
    assert "a  b " == Spell("a") + "  b ";
    ScanSpellBare("a", "  b ", []);
    assert [] + ["a"] == ["a"];
    SecondWord();
  }

  lemma SecondWord()
    ensures Scan("  b ", Unquoted, [], ["a"]) == Ok(["a", "b"])
  {
    assert "  b " == " " + " b ";
    ScanSpace(" b ", ["a"]);
    assert " b " == " " + "b ";
    ScanSpace("b ", ["a"]);
    assert "b " == Spell("b") + " ";
    ScanSpellBare("b", " ", ["a"]);
    assert " " == " " + [];
    assert ["a"] + ["b"] == ["a", "b"];
    ScanSpace([], ["a", "b"]);
  }

  lemma DoubledDelimiterCollapses()
    ensures Tokens("'it''s'") == Ok(["'it's'"])
  {
    assert IsQuotedToken("'it's'");
    assert "it's"[1..] == "t's" && "t's"[1..] == "'s" && "'s"[1..] == "s" && "s"[1..] == [];
    assert Double('\'', "s") == "s";
    assert Double('\'', "'s") == "''s";
    assert Double('\'', "t's") == "t''s";
    assert Double('\'', "it's") == "it''s";
    assert "'it's'"[1..5] == "it's";
    assert Spell("'it's'") == "'it''s'";
    TokensOfUnlex(["'it's'"]);
  }

  lemma UnterminatedQuoteExample()
    ensures Tokens("'abc") == Err(UnfinishedQuotation)
  {
    assert Unlex([]) + " " + ['\''] + "abc" == " 'abc";
    UnfinishedQuotationFails([], '\'', "abc");
    assert " 'abc" == " " + "'abc";
    ScanSpace("'abc", []);
  }
}
