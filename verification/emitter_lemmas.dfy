/** What the emitter promises, stated against a table of the commands it
    knows: which trees it accepts, which failure it reports for the others,
    and the text it writes for each command around its rendered
    arguments. */
module EmitterLemmas {
  import opened Outcome
  import opened Elements
  import opened Escaping
  import opened Emitter

  datatype Arity = Exactly(n: nat) | AtLeast(n: nat)

  /** What a command demands of its arguments: how many it takes, how many
      leading ones are counts that must look like integers, and the index of
      the first one rendered as a pattern. */
  datatype Rule = Rule(arity: Arity, counts: nat, first: nat)

  /** The commands the emitter knows. */
  function RuleOf(cmd: string): Option<Rule> {
    if cmd in {"match", "group"} then Some(Rule(AtLeast(0), 0, 0))
    else if cmd == "refer" then Some(Rule(Exactly(1), 1, 1))
    else if cmd in {"begin", "^", "end", "$", "\\n", "\\r", "\\t", "anychar", "."} then Some(Rule(Exactly(0), 0, 0))
    else if cmd == "range" then Some(Rule(Exactly(2), 0, 0))
    else if cmd in {"except", "optional", "zero-or-one", "?", "one-or-more", "+", "zero-or-more", "*", "or", "|"} then
      Some(Rule(AtLeast(1), 0, 0))
    else if cmd in {"times", "mintimes"} then Some(Rule(AtLeast(2), 1, 1))
    else if cmd == "minmaxtimes" then Some(Rule(AtLeast(3), 2, 2))
    else None
  }

  predicate Fits(count: nat, arity: Arity) {
    match arity
    case Exactly(n) => count == n
    case AtLeast(n) => count >= n
  }

  /** The failure an argument count that does not fit reports. */
  function ArityError(cmd: string, arity: Arity, found: nat): Error {
    match arity
    case Exactly(n) => ArgCountMismatch(cmd, n, found)
    case AtLeast(n) => TooFewArgs(cmd, n, found)
  }

  /** The leading `n` arguments, the counts, look like integers. */
  predicate CountsOk(args: seq<Element>, n: nat) {
    forall k :: 0 <= k < n && k < |args| ==> LooksLikeInteger(args[k].value)
  }

  /** What a command's own rule demands of it, its arguments' patterns
      aside. */
  predicate Accepts(cmd: string, args: seq<Element>) {
    RuleOf(cmd).Some?
    && Fits(|args|, RuleOf(cmd).value.arity)
    && CountsOk(args, RuleOf(cmd).value.counts)
  }

  /** A tree the emitter accepts: every command it reaches is known, has an
      argument count that fits, and count arguments that look like
      integers. Count arguments are never rendered, so they need nothing
      else. */
  predicate Valid(e: Element)
    decreases e
  {
    match e
    case Literal(_) => true
    case Command(cmd, args) =>
      Accepts(cmd, args) && forall k :: RuleOf(cmd).value.first <= k < |args| ==> Valid(args[k])
  }

  /** Every argument from index `i` on renders. */
  predicate RendersFrom(args: seq<Element>, i: nat) {
    forall k :: i <= k < |args| ==> Emit(args[k]).Ok?
  }

  /** Joining succeeds exactly when every argument it renders succeeds. */
  lemma {:induction false} JoinOkIff(e: Element, sep: string, start: nat, i: nat, acc: string)
    requires e.Command?
    ensures Join(e, sep, start, i, acc).Ok? <==> RendersFrom(e.args, i)
    decreases |e.args| - i
  {
    if i < |e.args| && Emit(e.args[i]).Ok? {
      JoinOkIff(e, sep, start, i + 1, acc + (if i > start then sep else "") + Emit(e.args[i]).value);
    }
  }

  /** One level of the emitter: a command renders exactly when its rule
      accepts it and its rendered arguments render. */
  lemma EmitOkIffAccepts(cmd: string, args: seq<Element>)
    ensures Emit(Command(cmd, args)).Ok? <==> Accepts(cmd, args) && RendersFrom(args, RuleOf(cmd).value.first)
  {
    if cmd in {"match", "group", "except", "range"} {
      OkIffJoined(cmd, args);
    } else if cmd in {"optional", "zero-or-one", "?", "one-or-more", "+", "zero-or-more", "*"} {
      OkIffQuantifier(cmd, args);
    } else if cmd in {"or", "|"} {
      OkIffOr(cmd, args);
    } else if cmd in {"times", "mintimes"} {
      OkIffTimes(cmd, args);
    } else if cmd == "minmaxtimes" {
      OkIffMinMaxTimes(cmd, args);
    } else {
      OkIffAtom(cmd, args);
    }
  }

  /** The commands that join all their arguments with nothing before them. */
  lemma OkIffJoined(cmd: string, args: seq<Element>)
    requires cmd in {"match", "group", "except", "range"}
    ensures Emit(Command(cmd, args)).Ok? <==> Accepts(cmd, args) && RendersFrom(args, RuleOf(cmd).value.first)
  {
    var e := Command(cmd, args);
    if cmd == "match" {
      JoinOkIff(e, "", 0, 0, "");
    } else if cmd == "group" {
      JoinOkIff(e, "", 0, 0, "(");
    } else if cmd == "except" {
      JoinOkIff(e, "", 0, 0, "[^");
    } else {
      JoinOkIff(e, "-", 0, 0, "[");
    }
  }

  lemma OkIffQuantifier(cmd: string, args: seq<Element>)
    requires cmd in {"optional", "zero-or-one", "?", "one-or-more", "+", "zero-or-more", "*"}
    ensures Emit(Command(cmd, args)).Ok? <==> Accepts(cmd, args) && RendersFrom(args, RuleOf(cmd).value.first)
  {
    JoinOkIff(Command(cmd, args), "", 0, 0, "(?:");
  }

  lemma OkIffOr(cmd: string, args: seq<Element>)
    requires cmd in {"or", "|"}
    ensures Emit(Command(cmd, args)).Ok? <==> Accepts(cmd, args) && RendersFrom(args, RuleOf(cmd).value.first)
  {
    JoinOkIff(Command(cmd, args), "|", 0, 0, "(?:");
  }

  lemma OkIffTimes(cmd: string, args: seq<Element>)
    requires cmd in {"times", "mintimes"}
    ensures Emit(Command(cmd, args)).Ok? <==> Accepts(cmd, args) && RendersFrom(args, RuleOf(cmd).value.first)
  {
    if cmd == "times" {
      OkIffCount("times", args);
    } else {
      OkIffCount("mintimes", args);
    }
  }

  lemma OkIffCount(cmd: string, args: seq<Element>)
    requires cmd == "times" || cmd == "mintimes"
    ensures Emit(Command(cmd, args)).Ok? <==> Accepts(cmd, args) && RendersFrom(args, RuleOf(cmd).value.first)
  {
    assert RuleOf(cmd) == Some(Rule(AtLeast(2), 1, 1));
    if |args| < 2 {
      assert VerifyMinArgCount(Command(cmd, args), 2, cmd).Err?;
    } else if !LooksLikeInteger(args[0].value) {
      assert !CountsOk(args, 1);
    } else {
      assert CountsOk(args, 1);
      JoinOkIff(Command(cmd, args), "", 1, 1, "");
    }
  }

  lemma OkIffMinMaxTimes(cmd: string, args: seq<Element>)
    requires cmd == "minmaxtimes"
    ensures Emit(Command(cmd, args)).Ok? <==> Accepts(cmd, args) && RendersFrom(args, RuleOf(cmd).value.first)
  {
    JoinOkIff(Command(cmd, args), "", 2, 2, "");
  }

  /** The commands without rendered arguments, and the unknown ones. */
  lemma OkIffAtom(cmd: string, args: seq<Element>)
    requires !(cmd in {"match", "group", "except", "range", "optional", "zero-or-one", "?", "one-or-more", "+",
                       "zero-or-more", "*", "or", "|", "times", "mintimes", "minmaxtimes"})
    ensures Emit(Command(cmd, args)).Ok? <==> Accepts(cmd, args) && RendersFrom(args, RuleOf(cmd).value.first)
  {
  }

  /** The emitter accepts exactly the valid trees. */
  lemma {:induction false} EmitOkIffValid(e: Element)
    ensures Emit(e).Ok? <==> Valid(e)
    decreases e
  {
    match e
    case Literal(_) =>
    case Command(cmd, args) =>
      forall k | 0 <= k < |args|
        ensures Emit(args[k]).Ok? <==> Valid(args[k])
      {
        EmitOkIffValid(args[k]);
      }
      EmitOkIffAccepts(cmd, args);
  }

  /** A command the table does not know fails with its name. */
  lemma UnknownCommandFails(cmd: string, args: seq<Element>)
    requires RuleOf(cmd).None?
    ensures Emit(Command(cmd, args)) == Err(UnknownCommand(cmd))
  {
  }

  /** A known command whose argument count does not fit fails with the
      count it expected and the count it found. (`refer` reads its group
      number first; see `ReferChecks`.) */
  lemma ArityFails(cmd: string, args: seq<Element>)
    requires RuleOf(cmd).Some? && cmd != "refer"
    requires !Fits(|args|, RuleOf(cmd).value.arity)
    ensures Emit(Command(cmd, args)) == Err(ArityError(cmd, RuleOf(cmd).value.arity, |args|))
  {
  }

  /** A count argument that is not all digits fails, naming its text; the
      counts are checked in order, after the argument count. */
  lemma CountFails(cmd: string, args: seq<Element>, k: nat)
    requires RuleOf(cmd).Some? && Fits(|args|, RuleOf(cmd).value.arity)
    requires k < RuleOf(cmd).value.counts
    requires CountsOk(args, k)
    requires !LooksLikeInteger(args[k].value)
    ensures Emit(Command(cmd, args)) == Err(NotAnInteger(cmd, args[k].value))
  {
  }

  /** `refer` checks its group number before its argument count, and a
      missing group number is an error of its own. */
  lemma ReferChecks(args: seq<Element>)
    ensures |args| == 0 ==> Emit(Command("refer", args)) == Err(MissingArgument("refer"))
    ensures |args| > 0 && !LooksLikeInteger(args[0].value) ==>
      Emit(Command("refer", args)) == Err(NotAnInteger("refer", args[0].value))
    ensures |args| > 1 && LooksLikeInteger(args[0].value) ==>
      Emit(Command("refer", args)) == Err(ArgCountMismatch("refer", 1, |args|))
  {
  }

  /** A literal is written as its escaped text, so it matches itself and
      nothing else. */
  lemma LiteralOutput(v: string)
    ensures Emit(Literal(v)).Ok?
    ensures Unescape(Emit(Literal(v)).value) == Some(v)
    ensures |Emit(Literal(v)).value| == |v| + CountSpecial(v)
  {
    UnescapeEscape(v);
    EscapeLength(v);
  }

  /** The pieces of a list of patterns joined by a separator. */
  function Intercalate(ps: seq<string>, sep: string): string {
    if ps == [] then "" else ps[0] + Prefixed(ps[1..], sep)
  }

  /** Each piece preceded by the separator. */
  function Prefixed(ps: seq<string>, sep: string): string {
    if ps == [] then "" else sep + ps[0] + Prefixed(ps[1..], sep)
  }

  predicate AllRender(xs: seq<Element>) {
    forall k :: 0 <= k < |xs| ==> Emit(xs[k]).Ok?
  }

  lemma AllRenderTail(xs: seq<Element>)
    requires xs != [] && AllRender(xs)
    ensures AllRender(xs[1..])
  {
    assert forall k :: 0 <= k < |xs| - 1 ==> xs[1..][k] == xs[k + 1];
  }

  /** The patterns of a list of trees that all render. */
  function Renders(xs: seq<Element>): (ps: seq<string>)
    requires AllRender(xs)
    ensures |ps| == |xs|
  {
    if xs == [] then [] else [Emit(xs[0]).value] + Renders(xs[1..])
  }

  /** One step of the argument loop over an argument that renders. */
  lemma JoinStep(e: Element, sep: string, start: nat, i: nat, acc: string, piece: string)
    requires e.Command? && i < |e.args| && Emit(e.args[i]) == Ok(piece)
    ensures Join(e, sep, start, i, acc) == Join(e, sep, start, i + 1, acc + (if i > start then sep else "") + piece)
  {
  }

  /** The patterns of the arguments from `i` on: the one at `i`, then
      those after it. */
  lemma RendersFirst(args: seq<Element>, i: nat)
    requires i < |args| && AllRender(args[i..]) && AllRender(args[i + 1..])
    ensures Renders(args[i..])[0] == Emit(args[i]).value
    ensures Renders(args[i..])[1..] == Renders(args[i + 1..])
  {
    assert args[i..][0] == args[i];
    assert args[i..][1..] == args[i + 1..];
  }

  /** The argument loop writes the rendered arguments in order, separated
      by `sep`, after what was already written. */
  lemma {:induction false} JoinValue(e: Element, sep: string, start: nat, i: nat, acc: string)
    requires e.Command? && start <= i <= |e.args|
    requires AllRender(e.args[i..])
    ensures Join(e, sep, start, i, acc)
      == Ok(acc + if i == start then Intercalate(Renders(e.args[i..]), sep) else Prefixed(Renders(e.args[i..]), sep))
    decreases |e.args| - i
  {
    if i == |e.args| {
      assert e.args[i..] == [];
      assert acc + "" == acc;
    } else {
      assert e.args[i..][0] == e.args[i];
      assert e.args[i..][1..] == e.args[i + 1..];
      AllRenderTail(e.args[i..]);
      var piece := Emit(e.args[i]).value;
      JoinValue(e, sep, start, i + 1, acc + (if i > start then sep else "") + piece);
      JoinValueStep(e, sep, start, i, acc, piece);
    }
  }

  /** One step of `JoinValue`, given what holds after it. */
  lemma JoinValueStep(e: Element, sep: string, start: nat, i: nat, acc: string, piece: string)
    requires e.Command? && start <= i < |e.args|
    requires AllRender(e.args[i..]) && AllRender(e.args[i + 1..])
    requires Emit(e.args[i]) == Ok(piece)
    requires
      var acc' := acc + (if i > start then sep else "") + piece;
      Join(e, sep, start, i + 1, acc') == Ok(acc' + Prefixed(Renders(e.args[i + 1..]), sep))
    ensures Join(e, sep, start, i, acc)
      == Ok(acc + if i == start then Intercalate(Renders(e.args[i..]), sep) else Prefixed(Renders(e.args[i..]), sep))
  {
    var ps := Renders(e.args[i..]);
    RendersFirst(e.args, i);
    JoinStep(e, sep, start, i, acc, piece);
    PiecesCons(ps, sep);
    StepText(acc, sep, piece, Prefixed(ps[1..], sep), i == start);
  }

  lemma PiecesCons(ps: seq<string>, sep: string)
    requires ps != []
    ensures Intercalate(ps, sep) == ps[0] + Prefixed(ps[1..], sep)
    ensures Prefixed(ps, sep) == sep + ps[0] + Prefixed(ps[1..], sep)
  {
  }

  lemma StepText(acc: string, sep: string, piece: string, tail: string, first: bool)
    ensures acc + (if !first then sep else "") + piece + tail
      == acc + if first then piece + tail else sep + piece + tail
  {
    if first {
      assert acc + "" == acc;
    }
  }

  /** What a command writes around its rendered arguments: an opening
      text, the separator between arguments, and a closing text. */
  datatype Frame = Frame(open: string, sep: string, close: string)

  /** The frame of each known command, given the texts of its first two
      arguments (the count arguments of the commands that have them). */
  function FrameOf(cmd: string, n: string, m: string): Frame {
    if cmd == "group" then Frame("(", "", ")")
    else if cmd == "refer" then Frame("\\" + n, "", "")
    else if cmd in {"begin", "^"} then Frame("^", "", "")
    else if cmd in {"end", "$"} then Frame("$", "", "")
    else if cmd in {"\\n", "\\r", "\\t"} then Frame(cmd, "", "")
    else if cmd in {"anychar", "."} then Frame(".", "", "")
    else if cmd == "except" then Frame("[^", "", "]")
    else if cmd == "range" then Frame("[", "-", "]")
    else if cmd in {"optional", "zero-or-one", "?"} then Frame("(?:", "", ")?")
    else if cmd in {"one-or-more", "+"} then Frame("(?:", "", ")+")
    else if cmd in {"zero-or-more", "*"} then Frame("(?:", "", ")*")
    else if cmd in {"or", "|"} then Frame("(?:", "|", ")")
    else if cmd == "times" then Frame("", "", "{" + n + "}")
    else if cmd == "mintimes" then Frame("", "", "{" + n + ",}")
    else if cmd == "minmaxtimes" then Frame("", "", "{" + n + "," + m + "}")
    else Frame("", "", "")  // match
  }

  function ArgText(args: seq<Element>, k: nat): string {
    if k < |args| then args[k].value else ""
  }

  /** The pattern a command accepted by its rule writes, given its
      arguments' patterns: its frame's opening, the patterns of its
      arguments from the rule's first rendered one on, joined by the frame's
      separator, and its frame's closing. */
  function Rendered(cmd: string, args: seq<Element>): string
    requires Accepts(cmd, args) && RuleOf(cmd).value.first <= |args|
    requires AllRender(args[RuleOf(cmd).value.first..])
  {
    var f := FrameOf(cmd, ArgText(args, 0), ArgText(args, 1));
    f.open + Intercalate(Renders(args[RuleOf(cmd).value.first..]), f.sep) + f.close
  }

  /** The output equation: a valid command writes exactly the text its
      frame and its arguments' patterns make up. */
  lemma EmitEquation(cmd: string, args: seq<Element>)
    requires Valid(Command(cmd, args))
    ensures Accepts(cmd, args) && RuleOf(cmd).value.first <= |args|
    ensures AllRender(args[RuleOf(cmd).value.first..])
    ensures Emit(Command(cmd, args)) == Ok(Rendered(cmd, args))
  {
    var first := RuleOf(cmd).value.first;
    assert AllRender(args[first..]) by {
      forall k | 0 <= k < |args[first..]|
        ensures Emit(args[first..][k]).Ok?
      {
        assert args[first..][k] == args[first + k];
        EmitOkIffValid(args[first + k]);
      }
    }
    if cmd == "match" {
      EquationJoined(cmd, args, "", "", "");
    } else if cmd == "group" {
      EquationJoined(cmd, args, "(", "", ")");
    } else if cmd == "except" {
      EquationJoined(cmd, args, "[^", "", "]");
    } else if cmd == "range" {
      EquationJoined(cmd, args, "[", "-", "]");
    } else if cmd in {"optional", "zero-or-one", "?"} {
      EquationJoined(cmd, args, "(?:", "", ")?");
    } else if cmd in {"one-or-more", "+"} {
      EquationJoined(cmd, args, "(?:", "", ")+");
    } else if cmd in {"zero-or-more", "*"} {
      EquationJoined(cmd, args, "(?:", "", ")*");
    } else if cmd in {"or", "|"} {
      EquationJoined(cmd, args, "(?:", "|", ")");
    } else if cmd in {"times", "mintimes"} {
      EquationRepeat(cmd, args);
    } else if cmd == "minmaxtimes" {
      EquationMinMaxTimes(cmd, args);
    } else {
      EquationAtom(cmd, args);
    }
  }

  /** Combining the emitter's rule for a command with the argument loop's
      output: the frame the rule writes around the joined arguments is the
      frame `Rendered` uses. */
  lemma Framed(cmd: string, args: seq<Element>, f: Frame)
    requires Accepts(cmd, args) && RuleOf(cmd).value.first <= |args|
    requires AllRender(args[RuleOf(cmd).value.first..])
    requires FrameOf(cmd, ArgText(args, 0), ArgText(args, 1)) == f
    requires
      var first := RuleOf(cmd).value.first;
      Emit(Command(cmd, args)) == (var s :- Join(Command(cmd, args), f.sep, first, first, f.open); Ok(s + f.close))
    ensures Emit(Command(cmd, args)) == Ok(Rendered(cmd, args))
  {
    var first := RuleOf(cmd).value.first;
    JoinValue(Command(cmd, args), f.sep, first, first, f.open);
  }

  /** The commands whose rules write an opening, the arguments joined by
      `sep` from the first on, and a closing. `written` is the closing as
      the rule appends it. */
  lemma EquationJoined(cmd: string, args: seq<Element>, open: string, sep: string, close: string)
    requires
      || (cmd == "match" && open == "" && sep == "" && close == "")
      || (cmd == "group" && open == "(" && sep == "" && close == ")")
      || (cmd == "except" && open == "[^" && sep == "" && close == "]")
      || (cmd == "range" && open == "[" && sep == "-" && close == "]")
      || (cmd in {"optional", "zero-or-one", "?"} && open == "(?:" && sep == "" && close == ")?")
      || (cmd in {"one-or-more", "+"} && open == "(?:" && sep == "" && close == ")+")
      || (cmd in {"zero-or-more", "*"} && open == "(?:" && sep == "" && close == ")*")
      || (cmd in {"or", "|"} && open == "(?:" && sep == "|" && close == ")")
    requires Accepts(cmd, args) && RuleOf(cmd).value.first <= |args|
    requires AllRender(args[RuleOf(cmd).value.first..])
    ensures Emit(Command(cmd, args)) == Ok(Rendered(cmd, args))
  {
    var f := Frame(open, sep, close);
    JoinedFrame(cmd, args, f);
    JoinedEmit(cmd, args, f);
    Framed(cmd, args, f);
  }

  lemma JoinedFrame(cmd: string, args: seq<Element>, f: Frame)
    requires
      || (cmd == "match" && f == Frame("", "", ""))
      || (cmd == "group" && f == Frame("(", "", ")"))
      || (cmd == "except" && f == Frame("[^", "", "]"))
      || (cmd == "range" && f == Frame("[", "-", "]"))
      || (cmd in {"optional", "zero-or-one", "?"} && f == Frame("(?:", "", ")?"))
      || (cmd in {"one-or-more", "+"} && f == Frame("(?:", "", ")+"))
      || (cmd in {"zero-or-more", "*"} && f == Frame("(?:", "", ")*"))
      || (cmd in {"or", "|"} && f == Frame("(?:", "|", ")"))
    ensures FrameOf(cmd, ArgText(args, 0), ArgText(args, 1)) == f
    ensures RuleOf(cmd).Some? && RuleOf(cmd).value.first == 0
  {
    if cmd in {"match", "group", "except", "range"} {
      BracketFrame(cmd, ArgText(args, 0), ArgText(args, 1), f);
    } else {
      GroupFrame(cmd, ArgText(args, 0), ArgText(args, 1), f);
    }
  }

  lemma BracketFrame(cmd: string, n: string, m: string, f: Frame)
    requires
      || (cmd == "match" && f == Frame("", "", ""))
      || (cmd == "group" && f == Frame("(", "", ")"))
      || (cmd == "except" && f == Frame("[^", "", "]"))
      || (cmd == "range" && f == Frame("[", "-", "]"))
    ensures FrameOf(cmd, n, m) == f
    ensures RuleOf(cmd).Some? && RuleOf(cmd).value.first == 0
  {
  }

  lemma GroupFrame(cmd: string, n: string, m: string, f: Frame)
    requires
      || (cmd in {"optional", "zero-or-one", "?"} && f == Frame("(?:", "", ")?"))
      || (cmd in {"one-or-more", "+"} && f == Frame("(?:", "", ")+"))
      || (cmd in {"zero-or-more", "*"} && f == Frame("(?:", "", ")*"))
      || (cmd in {"or", "|"} && f == Frame("(?:", "|", ")"))
    ensures FrameOf(cmd, n, m) == f
    ensures RuleOf(cmd).Some? && RuleOf(cmd).value.first == 0
  {
  }

  lemma JoinedEmit(cmd: string, args: seq<Element>, f: Frame)
    requires
      || (cmd == "match" && f == Frame("", "", ""))
      || (cmd == "group" && f == Frame("(", "", ")"))
      || (cmd == "except" && f == Frame("[^", "", "]"))
      || (cmd == "range" && f == Frame("[", "-", "]"))
      || (cmd in {"optional", "zero-or-one", "?"} && f == Frame("(?:", "", ")?"))
      || (cmd in {"one-or-more", "+"} && f == Frame("(?:", "", ")+"))
      || (cmd in {"zero-or-more", "*"} && f == Frame("(?:", "", ")*"))
      || (cmd in {"or", "|"} && f == Frame("(?:", "|", ")"))
    requires Accepts(cmd, args)
    ensures Emit(Command(cmd, args)) == (var s :- Join(Command(cmd, args), f.sep, 0, 0, f.open); Ok(s + f.close))
  {
    if cmd in {"match", "group", "except", "range"} {
      BracketEmit(cmd, args, f);
    } else {
      GroupEmit(cmd, args, f);
    }
  }

  lemma BracketEmit(cmd: string, args: seq<Element>, f: Frame)
    requires
      || (cmd == "match" && f == Frame("", "", ""))
      || (cmd == "group" && f == Frame("(", "", ")"))
      || (cmd == "except" && f == Frame("[^", "", "]"))
      || (cmd == "range" && f == Frame("[", "-", "]"))
    requires Accepts(cmd, args)
    ensures Emit(Command(cmd, args)) == (var s :- Join(Command(cmd, args), f.sep, 0, 0, f.open); Ok(s + f.close))
  {
    if cmd == "match" {
      var joined := Join(Command(cmd, args), "", 0, 0, "");
      if joined.Ok? {
        assert joined.value + "" == joined.value;
      }
    }
  }

  lemma GroupEmit(cmd: string, args: seq<Element>, f: Frame)
    requires
      || (cmd in {"optional", "zero-or-one", "?"} && f == Frame("(?:", "", ")?"))
      || (cmd in {"one-or-more", "+"} && f == Frame("(?:", "", ")+"))
      || (cmd in {"zero-or-more", "*"} && f == Frame("(?:", "", ")*"))
      || (cmd in {"or", "|"} && f == Frame("(?:", "|", ")"))
    requires Accepts(cmd, args)
    ensures Emit(Command(cmd, args)) == (var s :- Join(Command(cmd, args), f.sep, 0, 0, f.open); Ok(s + f.close))
  {
    if cmd in {"optional", "zero-or-one", "?"} {
      OptionalEmit(cmd, args, f);
    } else {
      RepeatEmit(cmd, args, f);
    }
  }

  lemma OptionalEmit(cmd: string, args: seq<Element>, f: Frame)
    requires cmd in {"optional", "zero-or-one", "?"} && f == Frame("(?:", "", ")?")
    requires Accepts(cmd, args)
    ensures Emit(Command(cmd, args)) == (var s :- Join(Command(cmd, args), f.sep, 0, 0, f.open); Ok(s + f.close))
  {
  }

  lemma RepeatEmit(cmd: string, args: seq<Element>, f: Frame)
    requires
      || (cmd in {"one-or-more", "+"} && f == Frame("(?:", "", ")+"))
      || (cmd in {"zero-or-more", "*"} && f == Frame("(?:", "", ")*"))
      || (cmd in {"or", "|"} && f == Frame("(?:", "|", ")"))
    requires Accepts(cmd, args)
    ensures Emit(Command(cmd, args)) == (var s :- Join(Command(cmd, args), f.sep, 0, 0, f.open); Ok(s + f.close))
  {
    if cmd == "one-or-more" {
    } else if cmd == "+" {
    } else if cmd == "zero-or-more" {
    } else if cmd == "*" {
    } else if cmd == "or" {
    } else {
    }
  }

  /** The commands with counts: the arguments after the counts, joined
      with nothing between them, then the counts in braces. */
  lemma EquationRepeat(cmd: string, args: seq<Element>)
    requires cmd in {"times", "mintimes"}
    requires Accepts(cmd, args) && RuleOf(cmd).value.first <= |args|
    requires AllRender(args[RuleOf(cmd).value.first..])
    ensures Emit(Command(cmd, args)) == Ok(Rendered(cmd, args))
  {
    var f := if cmd == "times" then Frame("", "", "{" + args[0].value + "}")
             else Frame("", "", "{" + args[0].value + ",}");
    assert FrameOf(cmd, ArgText(args, 0), ArgText(args, 1)) == f;
    EmitCounted(cmd, args, f);
    Framed(cmd, args, f);
  }

  lemma EquationMinMaxTimes(cmd: string, args: seq<Element>)
    requires cmd == "minmaxtimes"
    requires Accepts(cmd, args) && RuleOf(cmd).value.first <= |args|
    requires AllRender(args[RuleOf(cmd).value.first..])
    ensures Emit(Command(cmd, args)) == Ok(Rendered(cmd, args))
  {
    var f := Frame("", "", "{" + args[0].value + "," + args[1].value + "}");
    assert FrameOf(cmd, ArgText(args, 0), ArgText(args, 1)) == f;
    EmitCounted(cmd, args, f);
    Framed(cmd, args, f);
  }

  lemma EmitCounted(cmd: string, args: seq<Element>, f: Frame)
    requires
      || (cmd == "times" && f == Frame("", "", "{" + ArgText(args, 0) + "}"))
      || (cmd == "mintimes" && f == Frame("", "", "{" + ArgText(args, 0) + ",}"))
      || (cmd == "minmaxtimes" && f == Frame("", "", "{" + ArgText(args, 0) + "," + ArgText(args, 1) + "}"))
    requires Accepts(cmd, args)
    ensures RuleOf(cmd).Some?
    ensures
      var first := RuleOf(cmd).value.first;
      Emit(Command(cmd, args)) == (var s :- Join(Command(cmd, args), f.sep, first, first, f.open); Ok(s + f.close))
  {
    if cmd in {"times", "mintimes"} {
      EmitRepeat(cmd, args);
    } else {
      EmitMinMaxTimes(args);
    }
  }

  /** The suffix a single-count repetition writes after its count. */
  function RepeatClose(cmd: string): string {
    if cmd == "times" then "}" else ",}"
  }

  lemma EmitRepeat(cmd: string, args: seq<Element>)
    requires cmd in {"times", "mintimes"}
    requires Accepts(cmd, args)
    ensures RuleOf(cmd) == Some(Rule(AtLeast(2), 1, 1))
    ensures Emit(Command(cmd, args))
      == (var s :- Join(Command(cmd, args), "", 1, 1, ""); Ok(s + ("{" + ArgText(args, 0) + RepeatClose(cmd))))
  {
    var joined := Join(Command(cmd, args), "", 1, 1, "");
    if joined.Ok? {
      var v, n, c := joined.value, ArgText(args, 0), RepeatClose(cmd);
      assert v + "{" + n + c == v + ("{" + n + c);
    }
  }

  lemma EmitMinMaxTimes(args: seq<Element>)
    requires Accepts("minmaxtimes", args)
    ensures RuleOf("minmaxtimes") == Some(Rule(AtLeast(3), 2, 2))
    ensures Emit(Command("minmaxtimes", args))
      == (var s :- Join(Command("minmaxtimes", args), "", 2, 2, ""); Ok(s + ("{" + ArgText(args, 0) + "," + ArgText(args, 1) + "}")))
  {
    var joined := Join(Command("minmaxtimes", args), "", 2, 2, "");
    if joined.Ok? {
      var v, n, m := joined.value, ArgText(args, 0), ArgText(args, 1);
      assert v + "{" + n + "," + m + "}" == v + ("{" + n + "," + m + "}");
    }
  }

  /** The commands without rendered arguments. */
  lemma EquationAtom(cmd: string, args: seq<Element>)
    requires !(cmd in {"match", "group", "except", "range", "optional", "zero-or-one", "?", "one-or-more", "+",
                       "zero-or-more", "*", "or", "|", "times", "mintimes", "minmaxtimes"})
    requires Accepts(cmd, args) && RuleOf(cmd).value.first <= |args|
    requires AllRender(args[RuleOf(cmd).value.first..])
    ensures Emit(Command(cmd, args)) == Ok(Rendered(cmd, args))
  {
    assert args[RuleOf(cmd).value.first..] == [];
    var f := FrameOf(cmd, ArgText(args, 0), ArgText(args, 1));
    assert f.close == "" && f.open + "" + "" == f.open;
    assert Rendered(cmd, args) == f.open;
  }
}
