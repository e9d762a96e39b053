/** Stage 1: the tokenizer. A single left-to-right scan whose state is the
    current quotation delimiter (if any), a pending word, and the tokens
    emitted so far. */
module Tokenizer {
  import opened Outcome

  predicate IsWhitespace(c: char) {
    c == ' ' || c == '\t' || c == '\n' || c == '\r'
  }

  predicate IsQuote(c: char) {
    c == '\'' || c == '"'
  }

  predicate IsBracket(c: char) {
    c == '(' || c == ')' || c == '[' || c == ']'
  }

  /** A character that continues a bare (unquoted) word. */
  predicate IsWordChar(c: char) {
    !IsWhitespace(c) && !IsQuote(c) && !IsBracket(c)
  }

  /** The delimiter of the quotation being read, if any. */
  datatype Quotation = Unquoted | Quoted(delim: char)

  /** Emit the pending word, but only when it is non-empty. */
  function Flush(acc: seq<string>, word: string): (r: seq<string>)
    ensures |word| > 0 ==> r == acc + [word]
    ensures |word| == 0 ==> r == acc
  {
    if |word| > 0 then acc + [word] else acc
  }

  /** The scan, one character (two for a doubled delimiter) per step:
      `rest` is the input not yet read, `q` and `word` the scanner's state,
      `acc` the tokens emitted so far. */
  function Scan(rest: string, q: Quotation, word: string, acc: seq<string>): Result<seq<string>>
    decreases |rest|
  {
    if rest == [] then
      if q.Quoted? then Err(UnfinishedQuotation) else Ok(Flush(acc, word))
    else
      var c := rest[0];
      match q
      case Quoted(d) =>
        if c == d then
          if |rest| > 1 && rest[1] == c then
            // a doubled delimiter stands for one delimiter
            Scan(rest[2..], q, word + [c], acc)
          else
            // the closing delimiter ends the quoted token
            Scan(rest[1..], Unquoted, [], Flush(acc, word + [c]))
        else
          Scan(rest[1..], q, word + [c], acc)
      case Unquoted =>
        if IsWhitespace(c) then
          Scan(rest[1..], Unquoted, [], Flush(acc, word))
        else if IsQuote(c) then
          Scan(rest[1..], Quoted(c), [c], Flush(acc, word))
        else if IsBracket(c) then
          Scan(rest[1..], Unquoted, [], Flush(Flush(acc, word), [c]))
        else
          Scan(rest[1..], Unquoted, word + [c], acc)
  }

  /** The token sequence of a whole source text. */
  function Tokens(s: string): Result<seq<string>> {
    Scan(s, Unquoted, [], [])
  }

  predicate IsBracketToken(t: string) {
    |t| == 1 && IsBracket(t[0])
  }

  /** A quoted token keeps both of its delimiters. */
  predicate IsQuotedToken(t: string) {
    |t| >= 2 && IsQuote(t[0]) && t[|t| - 1] == t[0]
  }

  predicate IsBareWord(t: string) {
    |t| > 0 && forall k :: 0 <= k < |t| ==> IsWordChar(t[k])
  }

  /** The three shapes a token can have. */
  predicate WellShaped(t: string) {
    IsBracketToken(t) || IsQuotedToken(t) || IsBareWord(t)
  }

  /** What holds of the scanner's state between steps. */
  predicate ScanState(q: Quotation, word: string) {
    match q
    case Unquoted => forall k :: 0 <= k < |word| ==> IsWordChar(word[k])
    case Quoted(d) => IsQuote(d) && |word| >= 1 && word[0] == d
  }

  /** Every token the scan emits is well-shaped: non-empty, and either a
      single bracket, a quoted token that starts and ends with its
      delimiter, or a bare word without whitespace, quotes or brackets. */
  lemma {:induction false} ScanWellShaped(rest: string, q: Quotation, word: string, acc: seq<string>)
    requires ScanState(q, word)
    requires forall t <- acc :: WellShaped(t)
    ensures Scan(rest, q, word, acc).Ok? ==> forall t <- Scan(rest, q, word, acc).value :: WellShaped(t)
    decreases |rest|
  {
    if rest != [] {
      var c := rest[0];
      match q
      case Quoted(d) =>
        if c == d {
          if |rest| > 1 && rest[1] == c {
            ScanWellShaped(rest[2..], q, word + [c], acc);
          } else {
            var t := word + [c];
            assert IsQuotedToken(t);
            ScanWellShaped(rest[1..], Unquoted, [], Flush(acc, t));
          }
        } else {
          ScanWellShaped(rest[1..], q, word + [c], acc);
        }
      case Unquoted =>
        if IsWhitespace(c) {
          ScanWellShaped(rest[1..], Unquoted, [], Flush(acc, word));
        } else if IsQuote(c) {
          ScanWellShaped(rest[1..], Quoted(c), [c], Flush(acc, word));
        } else if IsBracket(c) {
          assert IsBracketToken([c]);
          ScanWellShaped(rest[1..], Unquoted, [], Flush(Flush(acc, word), [c]));
        } else {
          ScanWellShaped(rest[1..], Unquoted, word + [c], acc);
        }
    }
  }

  /** The tokenizer itself: a loop over the characters of `s` that updates
      the quotation, the pending word and the result list in place. */
  method Tokenize(s: string) returns (r: Result<seq<string>>)
    ensures r == Tokens(s)
    ensures r.Ok? ==> forall t <- r.value :: t != [] && WellShaped(t)
  {
    var result: seq<string> := [];
    var quotation := Unquoted;
    var word: string := [];
    var i := 0;
    while i < |s|
      invariant 0 <= i <= |s|
      invariant Scan(s[i..], quotation, word, result) == Tokens(s)
    {
      var c := s[i];
      if quotation.Quoted? {
        if c == quotation.delim {
          if i < |s| - 1 && s[i + 1] == c {
            word := word + [c];
            assert s[i..][2..] == s[i + 2..];
            i := i + 1;  // skip the second delimiter of the pair
          } else {
            word := word + [c];
            result, word := Flush(result, word), [];
            quotation := Unquoted;
          }
        } else {
          word := word + [c];
        }
      } else {
        if IsWhitespace(c) {
          result, word := Flush(result, word), [];
        } else if IsQuote(c) {
          result, word := Flush(result, word), [];
          quotation := Quoted(c);
          word := [c];
        } else if IsBracket(c) {
          result, word := Flush(result, word), [];
          word := [c];
          result, word := Flush(result, word), [];
        } else {
          word := word + [c];
        }
      }
      i := i + 1;
    }

    if quotation.Quoted? {
      return Err(UnfinishedQuotation);
    }
    result, word := Flush(result, word), [];
    r := Ok(result);
    ScanWellShaped(s, Unquoted, [], []);
  }
}
