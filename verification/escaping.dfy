/** Literal text inside a pattern: every character that has a meaning in a
    regular expression is preceded by a backslash, every other character is
    kept as it is. */
module Escaping {
  import opened Outcome

  /** The characters a literal must escape. */
  const SpecialChars: string := "^$.[]-?+*(){}|\\"

  predicate IsSpecial(c: char) {
    c in SpecialChars
  }

  /** One character as the pattern writes it. */
  function EscapeChar(c: char): (r: string)
    ensures IsSpecial(c) ==> r == ['\\', c]
    ensures !IsSpecial(c) ==> r == [c]
  {
    if IsSpecial(c) then ['\\', c] else [c]
  }

  /** A literal as the pattern writes it, character by character. */
  function Escape(s: string): string {
    if s == [] then [] else EscapeChar(s[0]) + Escape(s[1..])
  }

  /** The number of characters of `s` that need a backslash. */
  function CountSpecial(s: string): nat {
    if s == [] then 0 else (if IsSpecial(s[0]) then 1 else 0) + CountSpecial(s[1..])
  }

  /** Reading escaped text back: a backslash must be followed by a special
      character, and a special character must be preceded by a backslash. */
  function Unescape(t: string): Option<string> {
    if t == [] then Some([])
    else if t[0] == '\\' then
      if |t| >= 2 && IsSpecial(t[1]) then
        match Unescape(t[2..])
        case Some(s) => Some([t[1]] + s)
        case None => None
      else None
    else if IsSpecial(t[0]) then None
    else
      match Unescape(t[1..])
      case Some(s) => Some([t[0]] + s)
      case None => None
  }

  lemma {:induction false} EscapeAppend(a: string, b: string)
    ensures Escape(a + b) == Escape(a) + Escape(b)
    decreases a
  {
    if a == [] {
      assert a + b == b;
    } else {
      assert (a + b)[0] == a[0] && (a + b)[1..] == a[1..] + b;
      EscapeAppend(a[1..], b);
    }
  }

  /** The escaped text is as long as the literal plus one backslash per
      special character. */
  lemma {:induction false} EscapeLength(s: string)
    ensures |Escape(s)| == |s| + CountSpecial(s)
    decreases s
  {
    if s != [] {
      EscapeLength(s[1..]);
    }
  }

  /** Escaping loses nothing: the literal can be read back. */
  lemma {:induction false} UnescapeEscape(s: string)
    ensures Unescape(Escape(s)) == Some(s)
    decreases s
  {
    if s != [] {
      UnescapeEscape(s[1..]);
      var t := Escape(s);
      if IsSpecial(s[0]) {
        assert t[0] == '\\' && t[1] == s[0] && t[2..] == Escape(s[1..]);
      } else {
        assert s[0] != '\\';
        assert t[0] == s[0] && t[1..] == Escape(s[1..]);
      }
      assert [s[0]] + s[1..] == s;
    }
  }

  /** Every text that reads back as a literal is that literal's escaped
      form: escaping is the only way to write a literal. */
  lemma {:induction false} EscapeUnescape(t: string, s: string)
    requires Unescape(t) == Some(s)
    ensures Escape(s) == t
    decreases t
  {
    if t != [] {
      if t[0] == '\\' {
        var s' := Unescape(t[2..]).value;
        EscapeUnescape(t[2..], s');
        assert s == [t[1]] + s' && s[1..] == s';
        assert t == [t[0], t[1]] + t[2..];
      } else {
        var s' := Unescape(t[1..]).value;
        EscapeUnescape(t[1..], s');
        assert s == [t[0]] + s' && s[1..] == s';
        assert t == [t[0]] + t[1..];
      }
    }
  }

  /** The escaping loop: a result string that grows by one escaped
      character per step. */
  method EscapedLiteral(s: string) returns (result: string)
    ensures result == Escape(s)
    ensures Unescape(result) == Some(s)
  {
    result := "";
    var i := 0;
    while i < |s|
      invariant 0 <= i <= |s|
      invariant result == Escape(s[..i])
    {
      var c := s[i];
      if IsSpecial(c) {
        result := result + "\\";
      }
      result := result + [c];
      EscapeAppend(s[..i], [c]);
      assert s[..i + 1] == s[..i] + [c];
      i := i + 1;
    }
    assert s[..i] == s;
    UnescapeEscape(s);
  }
}
