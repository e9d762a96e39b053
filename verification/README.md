# Verbose Expressions in Dafny

Verbose Expressions (verbex) compiles a wordy, bracketed description of a
pattern, such as `begin 'a' end` or `or 'cat' 'dog'`, into a regular
expression (`^a$`, `(?:cat|dog)`). The compiler has three stages, and this
project models each of them together with the page's glue that chains them:

- **tokenizer** (`Tokenizer`): splits the source text into words, one-character
  bracket tokens, and quoted strings. A quoted string keeps its delimiters,
  and a doubled delimiter inside it stands for one. The model is a scan
  function `Scan` and the imperative loop `Tokenize`, which is proved equal
  to it.
- **representer** (`Representer`): builds the tree of `Element`s, where an
  element is either a `Literal` or a `Command` with ordered arguments. It
  keeps a bracket stack and buffers each bracketed sub-expression, then
  represents the buffer recursively. `[ ... ]` is read as `( match ... )`.
  Inside a parenthesised group, the first token names the group's
  command, so such a group that opens with another bracket, such as
  `( ( a ) )`, fails. A square group needs no command word, since its
  opener supplies `match`: `[ ( or 'a' ) ]` is accepted.
  The model is the function `Parse`/`ParseFrom` and the recursive method
  `Represent`, which is proved equal to it.
- **escaping** (`Escaping`): `EscapedLiteral` backslash-escapes the
  characters `^ $ . [ ] - ? + * ( ) { } | \`.
- **emitter** (`Emitter`): `Process` and its argument loop `JoinArgs`. They
  write the pattern by the rule of each command, and are proved equal to
  the function `Emit`/`Join`.
- **pipeline** (`Pipeline`): `CompileText` runs tokenize on `"match " +
  source`, then represent, then process.

Errors are values of one `Error` datatype (module `Outcome`), carried in a
`Result`. The first stage that fails decides the failure, as the page's
single `catch` does.

Beyond each method's equation with its specification function, the lemmas
prove the following:

- **Tokenizer.** Every token is well-shaped. The tokens of any text,
  spelled back to back, are that text without the whitespace outside
  quotations. Printing a list of well-shaped tokens and tokenizing the
  text again gives back the same list. An opening quote whose delimiter
  never recurs fails.
- **Representer.** Printing a tree as tokens and representing those tokens
  gives back the tree. For any token list whose brackets, after the first
  token, do not match type for type, representation fails; when a closer
  is at fault it fails with mismatched parentheses, and it never fails
  with anything but a bracket error. Matching brackets are not enough:
  `( ( a ) )` fails.
- **Escaping.** Escaping has an exact inverse.
- **Emitter.** Emission succeeds if and only if every command the emitter
  renders is known, has a fitting number of arguments, and has
  integer-looking counts. Arguments that are read only as counts are not
  rendered, so they are not checked. The emitted text is the command's
  frame around its arguments' joined patterns. Every pattern written is
  well nested.
- **Pipeline.** Compiling the printed arguments of any printable `match`
  tree (the text the page compiles) gives exactly what emitting that tree
  gives. Worked cases: `begin 'a' end` gives `^a$`,
  `( times 3 'ab' )` gives `ab{3}`, `( range 'a' 'z' )` gives `[a-z]` and
  `( or 'cat' 'dog' )` gives `(?:cat|dog)`. At top level a command word has
  no arguments of its own, so `times 3 'ab'` and `range 'a' 'z'` fail with
  an argument count error.

## Model

| member | source | states |
|---|---|---|
| Tokenizer.Tokenize | verbex.js:29-113 | the tokenizer loop returns exactly `Tokens(s)`; on success every token is non-empty and well-shaped |
| Tokenizer.ScanWellShaped | verbex.js:36-43 | from any reachable scanner state, every token emitted is a single bracket, a quoted token that starts and ends with its delimiter, or a bare word without whitespace, quotes or brackets |
| TokenizerLemmas.ScanDoubled | verbex.js:59-74 | inside a quotation, each doubled delimiter adds one delimiter to the word, and other characters are kept |
| TokenizerLemmas.ScanSpell | verbex.js:82-101 | the spelling of any well-shaped token, followed by whitespace or the end, is read back as exactly that token |
| TokenText.ScanText | verbex.js:45-110 | from any scanner state, a successful scan's tokens, spelled back to back, are the tokens already read, then the source text of the pending word, then the rest of the input without its whitespace outside quotations |
| TokenText.TokensSpellText | verbex.js:29-113 | the tokens of any text, spelled back to back, give that text with its whitespace outside quotations removed |
| TokenizerLemmas.TokensOfUnlex | verbex.js:29-113 | tokenizing the space-separated spelling of any list of well-shaped tokens gives back that list |
| TokenizerLemmas.TokensWellShaped | verbex.js:29-113 | every successful tokenization is well-shaped and is reproduced by tokenizing its own spelling |
| TokenizerLemmas.ScanOpenQuotation | verbex.js:105-108 | a quotation whose delimiter never comes back fails with the unfinished-quotation error |
| TokenizerLemmas.UnfinishedQuotationFails | verbex.js:86-91 | after any tokens, an opening quote whose delimiter never recurs makes tokenization fail |
| TokenizerLemmas.BracketsNeedNoWhitespace | verbex.js:92-97 | `(a)` tokenizes to `(`, `a`, `)` |
| TokenizerLemmas.WhitespaceSeparates | verbex.js:82-85 | ` a  b ` tokenizes to `a`, `b` |
| TokenizerLemmas.DoubledDelimiterCollapses | verbex.js:61-67 | `'it''s'` tokenizes to the single token `'it's'` |
| TokenizerLemmas.UnterminatedQuoteExample | verbex.js:105-108 | `'abc` fails with the unfinished-quotation error |
| Elements.VerifyArgCount | verbex.js:139-144 | succeeds if and only if the command has exactly the given number of arguments; otherwise reports the command, the expected count and the count found |
| Elements.VerifyMinArgCount | verbex.js:146-151 | succeeds if and only if the command has at least the given number of arguments; otherwise reports the command, the minimum and the count found |
| Representer.Leaf | verbex.js:223-243 | a top-level token is a literal exactly when it starts with a quote, and its value is the token without its two delimiters; any other token is an argument-less command named by the token |
| Representer.Parse | verbex.js:153-252 | a successful representation is a command named by the first token |
| Representer.Represent | verbex.js:153-252 | the representer loop, with its recursion on each closed group, returns exactly `Parse(tokenized)` |
| BracketNesting.ParseFromNests | verbex.js:163-249 | from any loop state whose buffer holds one open parenthesis per enclosing group, the representer fails only with a bracket error, fails with an unfinished expression only when a bracket stays open, and succeeds only when every closer finds its own opener |
| BracketNesting.ParseNests | verbex.js:153-252 | a representation fails only with a bracket error, leaves a bracket open when it reports an unfinished expression, and succeeds only on tokens whose brackets after the first match |
| BracketNesting.BracketErrors | verbex.js:182-249 | tokens whose brackets after the first do not match type for type fail; with mismatched parentheses when a closer finds nothing or the wrong opener; and with no error other than the two bracket errors |
| BracketNesting.GroupNeedsName | verbex.js:157-211 | the brackets of `( ( a ) )` match, yet representing it fails with mismatched parentheses, because the inner opener names the outer group's command |
| BracketNesting.SquareOfGroup | verbex.js:167-181 | `[ ( or 'a' ) ]` is read as a `match` over the `or` group: a square group's opener supplies the command word a parenthesised group would need |
| RepresenterLemmas.RoundTrip | verbex.js:153-252 | representing the printed tokens of any printable command tree gives back that tree |
| RepresenterLemmas.SquareGroup | verbex.js:175-178 | `[ ... ]` at top level becomes a `match` command over its contents |
| RepresenterLemmas.StrayCloser | verbex.js:187-190 | after a printable prefix, a closer with no group open fails with mismatched parentheses |
| RepresenterLemmas.WrongCloser | verbex.js:192-206 | after a printable prefix and printable group contents, `(` closed by `]`, or `[` closed by `)`, fails with mismatched parentheses |
| RepresenterLemmas.UnclosedGroup | verbex.js:246-249 | after a printable prefix, a group with printable contents still open at the end fails with unfinished expression |
| Escaping.EscapeLength | verbex.js:271-284 | the escaped text is longer by exactly the number of special characters |
| Escaping.UnescapeEscape | verbex.js:271-284 | escaping is undone by reading backslash pairs back |
| Escaping.EscapeUnescape | verbex.js:269-284 | any text that reads back as `s` is exactly the escaping of `s` |
| Escaping.EscapedLiteral | verbex.js:271-284 | the escaping loop returns `Escape(s)`, which reads back as `s` |
| Emitter.JoinArgs | verbex.js:290-301 | the argument loop appends the arguments' patterns from `starti` on, separated by `sep`, and fails with the first failing argument |
| Emitter.Process | verbex.js:286-429 | the emitter returns exactly `Emit(rep)` |
| EmitterLemmas.JoinOkIff | verbex.js:290-301 | joining succeeds if and only if every joined argument renders |
| EmitterLemmas.EmitOkIffAccepts | verbex.js:303-419 | a command renders if and only if its rule accepts its name, its argument count and its count arguments, and every argument it joins renders |
| EmitterLemmas.EmitOkIffValid | verbex.js:286-429 | a tree renders if and only if every command the emitter reaches is known, has a fitting argument count and integer-looking counts; count arguments are not rendered and need nothing more |
| EmitterLemmas.UnknownCommandFails | verbex.js:416-419 | a name without a rule fails with unknown command |
| EmitterLemmas.ArityFails | verbex.js:322-415 | a known command, other than `refer`, with a count that does not fit fails with the exact or minimum count error for that command |
| EmitterLemmas.CountFails | verbex.js:384-415 | the first count argument that is not all digits is reported as not an integer |
| EmitterLemmas.ReferChecks | verbex.js:316-321 | `refer` fails without an argument, then on a non-integer group number, and only then on extra arguments |
| EmitterLemmas.LiteralOutput | verbex.js:423-426 | a literal always renders, as text that reads back as the literal and is longer by its special characters |
| EmitterLemmas.JoinValue | verbex.js:290-301 | the joined text is the accumulated prefix followed by the rendered arguments interleaved with the separator |
| EmitterLemmas.EmitEquation | verbex.js:303-415 | a valid command writes its frame's opening, then its rendered arguments joined by the frame's separator, then its closing |
| Nesting.EscapeBalanced | verbex.js:271-284 | reading escaped literal text leaves any stack of open delimiters as it was, so a literal can be placed anywhere |
| Nesting.FrameNests | verbex.js:303-415 | each command's frame, around well-nested arguments, is well nested |
| Nesting.EmitNests | verbex.js:286-429 | every pattern the emitter writes is well nested |
| Pipeline.CompileText | verbex.js:437-452 | tokenize, represent and process run on `"match " + source` return exactly `Compile(source)`, and a success is well nested |
| Pipeline.CompileNests | verbex.js:437-452 | every compiled pattern is well nested |
| Pipeline.CompilePrinted | verbex.js:437-452 | compiling the printed arguments of a printable `match` tree gives that tree's pattern |
| CompileExamples.AnchoredLiteral | verbex.js:322-331 | `begin 'a' end` compiles to `^a$` |
| CompileExamples.RepeatBracketed | verbex.js:384-392 | `( times 3 'ab' )` compiles to `ab{3}` |
| CompileExamples.RepeatNeedsBrackets | verbex.js:384-392 | `times 3 'ab'` fails: at top level `times` is an argument of `match` with no arguments of its own |
| CompileExamples.RangeBracketed | verbex.js:349-355 | `( range 'a' 'z' )` compiles to `[a-z]` |
| CompileExamples.RangeNeedsBrackets | verbex.js:349-355 | `range 'a' 'z'` fails, expecting 2 arguments and finding 0, because at top level `range` has no arguments of its own |
| CompileExamples.OrBracketed | verbex.js:377-383 | `( or 'cat' 'dog' )` compiles to `(?:cat|dog)` |
| CompileExamples.GroupOfGroupFails | verbex.js:157-211 | `( ( a ) )` fails with mismatched parentheses |
| CompileExamples.EmptyGroupFails | verbex.js:157-211 | `( )` represents an empty buffer as a command with no name, which fails as an unknown command |
| CompileExamples.Repeat | verbex.js:384-392 | `times` with count 3 over `'ab'` renders `ab{3}` |
| CompileExamples.Alternatives | verbex.js:377-383 | `or` over `cat` and `dog` renders `(?:cat|dog)` |
| CompileExamples.CharacterRange | verbex.js:349-355 | `range` over `a` and `z` renders `[a-z]` |
| CompileExamples.RangeNeedsTwoEnds | verbex.js:349-355 | `range` with one argument fails, expecting 2 and finding 1 |
| CompileExamples.EscapedDot | verbex.js:423-426 | the literal `a.b` renders `a\.b` |

## Left out

- The page's two button handlers (verbex.js:431 onward), the form fields
  they read and write, and the browser's regular-expression match that the
  second button runs. `CompileText` stands for the first button's `try`
  block. The `"ERROR: "` prefix added to a caught message is not modelled.
- `VEElement.prototype.makeString` is a debugging printer. Its only use is
  in commented-out code, so it is not modelled.
- `looksLikeInteger` uses a `RegExp`. It is modelled directly as "non-empty,
  all ASCII digits", which is what `^[0-9]+$` accepts.
- Error messages are `Error` constructors that carry the same data (command
  name, expected and found counts, offending text), not the English
  sentences that are thrown.
- `represent` of an empty token list names its command `undefined`. The
  model uses the empty name `""`, which no token can be, so it stays
  distinct. An empty group `( )` is the only empty list the pipeline
  represents. Its command then fails as unknown, named `""` where the
  source reports `undefined` (see `CompileExamples.EmptyGroupFails`).
- `refer` with no argument throws a JavaScript `TypeError`, from reading
  `.value` of `undefined`. The model reports `MissingArgument("refer")`.
- Repetition output: one might expect `(?:ab){3}` for `times 3 'ab'` and
  `(?:x){2,4}` for `minmaxtimes 2 4 'x'`. The code (verbex.js:384-415)
  writes no group: it puts `{n}` straight after the joined arguments, so
  `( times 3 'ab' )` gives `ab{3}`. The model follows the code (see
  `CompileExamples.RepeatBracketed`).
- Unbracketed commands: at top level every token is an argument of the
  implicit `match` with no arguments of its own (verbex.js:219-243). So
  every command that needs arguments (`times`, `range`, `or`, `except`
  and the rest) fails there with an argument count error, and `refer`
  with a missing argument; such commands must be written in brackets.
  `match` and `group` accept no arguments and do not fail there. The model follows the code (see
  `CompileExamples.RepeatNeedsBrackets` and
  `CompileExamples.RangeNeedsBrackets`).
- JavaScript strings are sequences of UTF-16 code units. The model uses
  Dafny `char`, and nothing in the core depends on the difference.
