/** The tokens account for every character of the source text: spelled back
    to back, they give the source with the whitespace outside quotations
    taken out. Apart from that whitespace, no character is dropped, added
    or moved. */
module TokenText {
  import opened Outcome
  import opened Tokenizer
  import opened TokenizerLemmas

  /** The source text with the whitespace outside quotations removed. Each
      delimiter of the open quotation ends it, so a doubled delimiter closes
      and at once reopens it. */
  function Squeeze(s: string, q: Quotation): string
    decreases |s|
  {
    if s == [] then []
    else
      match q
      case Quoted(d) =>
        if s[0] == d then [d] + Squeeze(s[1..], Unquoted) else [s[0]] + Squeeze(s[1..], q)
      case Unquoted =>
        if IsWhitespace(s[0]) then Squeeze(s[1..], Unquoted)
        else if IsQuote(s[0]) then [s[0]] + Squeeze(s[1..], Quoted(s[0]))
        else [s[0]] + Squeeze(s[1..], Unquoted)
  }

  /** The spellings of the tokens, written back to back. */
  function Spelled(ts: seq<string>): string {
    if ts == [] then [] else Spelled(ts[..|ts| - 1]) + Spell(ts[|ts| - 1])
  }

  /** The source text of the word the scanner is reading. */
  function Pending(q: Quotation, word: string): string {
    match q
    case Unquoted => word
    case Quoted(d) => if word == [] then [] else [d] + Double(d, word[1..])
  }

  lemma SpelledFlush(acc: seq<string>, word: string)
    requires forall k :: 0 <= k < |word| ==> IsWordChar(word[k])
    ensures Spelled(Flush(acc, word)) == Spelled(acc) + word
  {
    if |word| > 0 {
      assert (acc + [word])[..|acc|] == acc;
      assert !IsQuote(word[0]);
    } else {
      assert Spelled(acc) + word == Spelled(acc);
    }
  }

  lemma {:induction false} DoubleSnoc(d: char, body: string, c: char)
    ensures Double(d, body + [c]) == Double(d, body) + (if c == d then [d, d] else [c])
    decreases body
  {
    if body == [] {
      assert body + [c] == [c];
    } else {
      assert (body + [c])[0] == body[0] && (body + [c])[1..] == body[1..] + [c];
      DoubleSnoc(d, body[1..], c);
    }
  }

  /** A delimiter doubled inside the quotation. */
  lemma TextDoubled(d: char, word: string, after: string)
    requires |word| >= 1 && word[0] == d && IsQuote(d)
    ensures Pending(Quoted(d), word) + Squeeze([d, d] + after, Quoted(d))
      == Pending(Quoted(d), word + [d]) + Squeeze(after, Quoted(d))
  {
    var s := [d, d] + after;
    assert s[0] == d && s[1..] == [d] + after;
    assert ([d] + after)[0] == d && ([d] + after)[1..] == after;
    var tail := Squeeze(after, Quoted(d));
    assert Squeeze([d] + after, Unquoted) == [d] + tail;
    assert Squeeze(s, Quoted(d)) == [d] + ([d] + tail);
    var x := Double(d, word[1..]);
    DoubleSnoc(d, word[1..], d);
    assert (word + [d])[1..] == word[1..] + [d];
    assert Pending(Quoted(d), word + [d]) == [d] + (x + [d, d]);
    assert [d] + x + ([d] + ([d] + tail)) == [d] + (x + [d, d]) + tail;
  }

  /** The delimiter that closes the quotation. */
  lemma TextClosed(d: char, word: string, after: string, acc: seq<string>)
    requires |word| >= 1 && word[0] == d && IsQuote(d)
    ensures Spelled(acc) + Pending(Quoted(d), word) + Squeeze([d] + after, Quoted(d))
      == Spelled(Flush(acc, word + [d])) + Squeeze(after, Unquoted)
  {
    var t := word + [d];
    assert IsQuotedToken(t);
    assert t[1..|t| - 1] == word[1..];
    assert (acc + [t])[..|acc|] == acc;
    assert ([d] + after)[0] == d && ([d] + after)[1..] == after;
  }

  /** Any other character inside the quotation. */
  lemma TextQuoted(d: char, word: string, c: char, after: string)
    requires |word| >= 1 && word[0] == d && c != d
    ensures Pending(Quoted(d), word) + Squeeze([c] + after, Quoted(d))
      == Pending(Quoted(d), word + [c]) + Squeeze(after, Quoted(d))
  {
    assert ([c] + after)[0] == c && ([c] + after)[1..] == after;
    DoubleSnoc(d, word[1..], c);
    assert (word + [c])[1..] == word[1..] + [c];
  }

  /** One step of the scan inside a quotation, and what it leaves to read. */
  lemma QuotedStep(rest: string, d: char, word: string, acc: seq<string>)
    returns (rest': string, q': Quotation, word': string, acc': seq<string>)
    requires rest != [] && ScanState(Quoted(d), word)
    ensures |rest'| < |rest| && ScanState(q', word')
    ensures Scan(rest, Quoted(d), word, acc) == Scan(rest', q', word', acc')
    ensures Spelled(acc) + Pending(Quoted(d), word) + Squeeze(rest, Quoted(d))
      == Spelled(acc') + Pending(q', word') + Squeeze(rest', q')
  {
    var c := rest[0];
    if c == d {
      if |rest| > 1 && rest[1] == c {
        rest', q', word', acc' := rest[2..], Quoted(d), word + [c], acc;
        assert rest == [d, d] + rest[2..];
        TextDoubled(d, word, rest[2..]);
        Associate(Spelled(acc), Pending(Quoted(d), word), Squeeze(rest, Quoted(d)));
        Associate(Spelled(acc), Pending(q', word'), Squeeze(rest', q'));
      } else {
        rest', q', word', acc' := rest[1..], Unquoted, [], Flush(acc, word + [c]);
        assert rest == [d] + rest[1..];
        TextClosed(d, word, rest[1..], acc);
      }
    } else {
      rest', q', word', acc' := rest[1..], Quoted(d), word + [c], acc;
      assert rest == [c] + rest[1..];
      TextQuoted(d, word, c, rest[1..]);
      Associate(Spelled(acc), Pending(Quoted(d), word), Squeeze(rest, Quoted(d)));
      Associate(Spelled(acc), Pending(q', word'), Squeeze(rest', q'));
    }
  }

  /** One step of the scan outside quotations, and what it leaves to read. */
  lemma UnquotedStep(rest: string, word: string, acc: seq<string>)
    returns (rest': string, q': Quotation, word': string, acc': seq<string>)
    requires rest != [] && ScanState(Unquoted, word)
    ensures |rest'| < |rest| && ScanState(q', word')
    ensures Scan(rest, Unquoted, word, acc) == Scan(rest', q', word', acc')
    ensures Spelled(acc) + word + Squeeze(rest, Unquoted) == Spelled(acc') + Pending(q', word') + Squeeze(rest', q')
  {
    var c := rest[0];
    rest' := rest[1..];
    if IsWhitespace(c) || IsQuote(c) || IsBracket(c) {
      q', word', acc' := WordEnds(rest, word, acc);
    } else {
      q', word', acc' := Unquoted, word + [c], acc;
      assert rest == [c] + rest';
      SqueezeKeep(c, rest');
      Associate(Spelled(acc) + word, [c], Squeeze(rest', Unquoted));
    }
  }

  /** Whitespace, a quote or a bracket ends the pending bare word. */
  lemma WordEnds(rest: string, word: string, acc: seq<string>) returns (q': Quotation, word': string, acc': seq<string>)
    requires rest != [] && ScanState(Unquoted, word)
    requires IsWhitespace(rest[0]) || IsQuote(rest[0]) || IsBracket(rest[0])
    ensures ScanState(q', word')
    ensures Scan(rest, Unquoted, word, acc) == Scan(rest[1..], q', word', acc')
    ensures Spelled(acc) + word + Squeeze(rest, Unquoted) == Spelled(acc') + Pending(q', word') + Squeeze(rest[1..], q')
  {
    var c := rest[0];
    if IsWhitespace(c) {
      q', word', acc' := Unquoted, [], Flush(acc, word);
      SpaceEnds(rest, word, acc);
    } else if IsQuote(c) {
      q', word', acc' := Quoted(c), [c], Flush(acc, word);
      QuoteEnds(rest, word, acc);
    } else {
      q', word', acc' := Unquoted, [], Flush(Flush(acc, word), [c]);
      BracketEnds(rest, word, acc);
    }
  }

  lemma SpaceEnds(rest: string, word: string, acc: seq<string>)
    requires rest != [] && ScanState(Unquoted, word) && IsWhitespace(rest[0])
    ensures Scan(rest, Unquoted, word, acc) == Scan(rest[1..], Unquoted, [], Flush(acc, word))
    ensures Spelled(acc) + word + Squeeze(rest, Unquoted) == Spelled(Flush(acc, word)) + [] + Squeeze(rest[1..], Unquoted)
  {
    SpelledFlush(acc, word);
  }

  lemma QuoteEnds(rest: string, word: string, acc: seq<string>)
    requires rest != [] && ScanState(Unquoted, word) && IsQuote(rest[0])
    ensures Scan(rest, Unquoted, word, acc) == Scan(rest[1..], Quoted(rest[0]), [rest[0]], Flush(acc, word))
    ensures Spelled(acc) + word + Squeeze(rest, Unquoted)
      == Spelled(Flush(acc, word)) + Pending(Quoted(rest[0]), [rest[0]]) + Squeeze(rest[1..], Quoted(rest[0]))
  {
    var c := rest[0];
    SpelledFlush(acc, word);
    assert Double(c, [c][1..]) == [];
    assert Pending(Quoted(c), [c]) == [c];
    Associate(Spelled(acc) + word, [c], Squeeze(rest[1..], Quoted(c)));
  }

  lemma BracketEnds(rest: string, word: string, acc: seq<string>)
    requires rest != [] && ScanState(Unquoted, word) && IsBracket(rest[0])
    ensures Scan(rest, Unquoted, word, acc) == Scan(rest[1..], Unquoted, [], Flush(Flush(acc, word), [rest[0]]))
    ensures Spelled(acc) + word + Squeeze(rest, Unquoted)
      == Spelled(Flush(Flush(acc, word), [rest[0]])) + [] + Squeeze(rest[1..], Unquoted)
  {
    var c := rest[0];
    assert rest == [c] + rest[1..];
    BracketScan(c, rest[1..], word, acc);
    BracketSpelled(c, rest[1..], word, acc);
  }

  lemma BracketSpelled(c: char, after: string, word: string, acc: seq<string>)
    requires ScanState(Unquoted, word) && IsBracket(c)
    ensures Spelled(acc) + word + Squeeze([c] + after, Unquoted)
      == Spelled(Flush(Flush(acc, word), [c])) + [] + Squeeze(after, Unquoted)
  {
    var flushed := Flush(acc, word);
    var tail := Squeeze(after, Unquoted);
    SpelledFlush(acc, word);
    BracketText(flushed, c);
    SqueezeKeep(c, after);
    Regroup(Spelled(acc) + word, [c], tail);
  }

  lemma Regroup(a: string, b: string, c: string)
    ensures a + (b + c) == a + b + [] + c
  {
  }

  /** Outside quotations, a character other than whitespace and quotes is
      kept as it is. */
  lemma SqueezeKeep(c: char, after: string)
    requires !IsWhitespace(c) && !IsQuote(c)
    ensures Squeeze([c] + after, Unquoted) == [c] + Squeeze(after, Unquoted)
  {
    assert ([c] + after)[0] == c && ([c] + after)[1..] == after;
  }

  lemma BracketScan(c: char, after: string, word: string, acc: seq<string>)
    requires IsBracket(c)
    ensures Scan([c] + after, Unquoted, word, acc) == Scan(after, Unquoted, [], Flush(Flush(acc, word), [c]))
  {
    assert ([c] + after)[0] == c && ([c] + after)[1..] == after;
  }

  lemma BracketText(flushed: seq<string>, c: char)
    ensures Spelled(Flush(flushed, [c])) == Spelled(flushed) + [c]
  {
    assert (flushed + [[c]])[..|flushed|] == flushed;
  }

  /** The representation invariant of a scan in progress: what is already
      emitted, the pending word and the unread text spell the tokens. */
  lemma {:induction false} ScanText(rest: string, q: Quotation, word: string, acc: seq<string>)
    requires ScanState(q, word)
    ensures Scan(rest, q, word, acc).Ok? ==>
      Spelled(Scan(rest, q, word, acc).value) == Spelled(acc) + Pending(q, word) + Squeeze(rest, q)
    decreases |rest|
  {
    if rest == [] {
      if q.Unquoted? {
        SpelledFlush(acc, word);
      }
    } else {
      var rest', q', word', acc';
      if q.Quoted? {
        rest', q', word', acc' := QuotedStep(rest, q.delim, word, acc);
      } else {
        rest', q', word', acc' := UnquotedStep(rest, word, acc);
      }
      ScanText(rest', q', word', acc');
    }
  }

  /** Spelled back to back, the tokens of a source text give that text with
      its whitespace outside quotations removed. */
  lemma TokensSpellText(s: string)
    ensures Tokens(s).Ok? ==> Spelled(Tokens(s).value) == Squeeze(s, Unquoted)
  {
    ScanText(s, Unquoted, [], []);
  }
}
