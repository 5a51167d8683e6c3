/**
 How the nesting of braces is followed through conditional compilation: at
 each conditional the state is saved, and only the first branch counts.
 */
module Preproc {

  datatype Kind = If | Else | Endif | Other

  // ----- telling directives -----

  predicate Space(c: char) { c == ' ' || c == '\t' || c == '\n' || c == '\r' || c == '\U{000b}' || c == '\U{000c}' }

  predicate WordChar(c: char) { 'a' <= c <= 'z' || 'A' <= c <= 'Z' || '0' <= c <= '9' || c == '_' }

  function SkipSpace(s: string): string {
    if s != "" && Space(s[0]) then SkipSpace(s[1..]) else s
  }

  /** The longest word at the start of `s`. */
  function Word(s: string): string {
    if s != "" && WordChar(s[0]) then [s[0]] + Word(s[1..]) else ""
  }

  /** A `#`, perhaps after some space, then a keyword; `elif` counts as an else. */
  function KindOf(line: string): Kind {
    var s := SkipSpace(line);
    if s == "" || s[0] != '#' then Other else
      var word := Word(SkipSpace(s[1..]));
      if word == "if" || word == "ifdef" || word == "ifndef" then If
      else if word == "else" || word == "elif" then Else
      else if word == "endif" then Endif
      else Other
  }

  predicate AllSpace(s: string) {
    forall c <- s :: Space(c)
  }

  /** A `#` with nothing but space before it and between it and the whole word `w`. */
  ghost predicate DirectiveIn(line: string, w: string, before: string, between: string, after: string) {
    && line == before + "#" + between + w + after
    && AllSpace(before) && AllSpace(between) && (after == "" || !WordChar(after[0]))
  }

  ghost predicate HasDirective(line: string, w: string) {
    exists before, between, after :: DirectiveIn(line, w, before, between, after)
  }

  /** Lines are directives exactly by the words that follow their `#`. */
  lemma KindIff(line: string)
    ensures KindOf(line) == If <==>
            HasDirective(line, "if") || HasDirective(line, "ifdef") || HasDirective(line, "ifndef")
    ensures KindOf(line) == Else <==> HasDirective(line, "else") || HasDirective(line, "elif")
    ensures KindOf(line) == Endif <==> HasDirective(line, "endif")
  {
    WordIff(line, "if");
    WordIff(line, "ifdef");
    WordIff(line, "ifndef");
    WordIff(line, "else");
    WordIff(line, "elif");
    WordIff(line, "endif");
  }

  predicate Starts(line: string, w: string) {
    var s := SkipSpace(line);
    s != "" && s[0] == '#' && Word(SkipSpace(s[1..])) == w
  }

  lemma WordIff(line: string, w: string)
    requires w != "" && forall c <- w :: WordChar(c)
    ensures HasDirective(line, w) <==> Starts(line, w)
  {
    if Starts(line, w) {
      var before := SpaceSkipped(line);
      var between := SpaceSkipped(SkipSpace(line)[1..]);
      var after := WordFound(SkipSpace(SkipSpace(line)[1..]));
      PutTogether(line, w, before, between, after);
      assert DirectiveIn(line, w, before, between, after);
    }
    if HasDirective(line, w) {
      var before, between, after :| DirectiveIn(line, w, before, between, after);
      TakenApart(line, w, before, between, after);
    }
  }

  lemma PutTogether(line: string, w: string, before: string, between: string, after: string)
    requires Starts(line, w) && line == before + SkipSpace(line)
    requires SkipSpace(line)[1..] == between + SkipSpace(SkipSpace(line)[1..])
    requires SkipSpace(SkipSpace(line)[1..]) == w + after
    ensures line == before + "#" + between + w + after
  {
    var s := SkipSpace(line);
    assert s == "#" + s[1..];
    assert s[1..] == between + (w + after) == between + w + after;
  }

  lemma TakenApart(line: string, w: string, before: string, between: string, after: string)
    requires DirectiveIn(line, w, before, between, after)
    requires w != "" && forall c <- w :: WordChar(c)
    ensures Starts(line, w)
  {
    var t := w + after;
    assert w[0] in w && t[0] == w[0];
    var s := "#" + between + t;
    assert line == before + s;
    SkipTo(before, s);
    assert s[1..] == between + t;
    SkipTo(between, t);
    WordIs(w, after);
  }

  /** The space that is skipped. */
  lemma {:induction false} SpaceSkipped(s: string) returns (before: string)
    ensures s == before + SkipSpace(s) && AllSpace(before)
  {
    before := "";
    if s != "" && Space(s[0]) {
      var more := SpaceSkipped(s[1..]);
      before := [s[0]] + more;
    }
  }

  lemma {:induction false} SkipTo(before: string, s: string)
    requires AllSpace(before) && s != "" && !Space(s[0])
    ensures SkipSpace(before + s) == s
  {
    if before == "" {
      assert before + s == s;
    } else {
      assert (before + s)[1..] == before[1..] + s && before[0] in before;
      SkipTo(before[1..], s);
    }
  }

  lemma {:induction false} WordFound(s: string) returns (after: string)
    ensures s == Word(s) + after && (after == "" || !WordChar(after[0]))
  {
    after := s;
    if s != "" && WordChar(s[0]) {
      after := WordFound(s[1..]);
    }
  }

  lemma {:induction false} WordIs(w: string, after: string)
    requires (forall c <- w :: WordChar(c)) && (after == "" || !WordChar(after[0]))
    ensures Word(w + after) == w
  {
    if w == "" {
      assert w + after == after;
    } else {
      assert (w + after)[1..] == w[1..] + after && w[0] in w;
      WordIs(w[1..], after);
    }
  }

  // ----- the machine, for any effect lines may have on the stack -----

  datatype Line<T> = Line(kind: Kind, content: T)

  datatype Info<S> = Info(beforeIf: S, beforeElse: S, seenElse: bool)

  datatype State<S> = State(stack: S, pp: seq<Info<S>>)

  /** What a line does to the saved states, before it does anything else. */
  function Directive<S>(empty: S, kind: Kind, s: State<S>): State<S> {
    var n := |s.pp| - 1;
    match kind
    case If => s.(pp := s.pp + [Info(s.stack, empty, false)])
    case Else =>
      if n < 0 then s else
        var top := if s.pp[n].seenElse then s.pp[n] else s.pp[n].(seenElse := true, beforeElse := s.stack);
        State(top.beforeIf, s.pp[..n] + [top])
    case Endif =>
      if n < 0 then s
      else State(if s.pp[n].seenElse then s.pp[n].beforeElse else s.stack, s.pp[..n])
    case Other => s
  }

  type Effect<!T, !S> = (T, S) -> S

  function Step<T, S>(u: Effect<T, S>, empty: S, s: State<S>, line: Line<T>): State<S> {
    var d := Directive(empty, line.kind, s);
    d.(stack := u(line.content, d.stack))
  }

  function Run<T, S>(u: Effect<T, S>, empty: S, s: State<S>, lines: seq<Line<T>>): State<S> {
    if lines == [] then s
    else Step(u, empty, Run(u, empty, s, lines[..|lines| - 1]), lines[|lines| - 1])
  }

  // ----- what is meant -----

  /** The stack after lines without any conditionals. */
  function Plainly<T, S>(u: Effect<T, S>, stack: S, lines: seq<Line<T>>): S {
    if lines == [] then stack else u(lines[|lines| - 1].content, Plainly(u, stack, lines[..|lines| - 1]))
  }

  /** For each conditional that is open, whether its else has been seen. */
  function Flags(flags: seq<bool>, kind: Kind): seq<bool> {
    var n := |flags| - 1;
    match kind
    case If => flags + [false]
    case Else => if n < 0 then flags else flags[..n] + [true]
    case Endif => if n < 0 then flags else flags[..n]
    case Other => flags
  }

  function FlagsAfter<T>(lines: seq<Line<T>>): seq<bool> {
    if lines == [] then [] else Flags(FlagsAfter(lines[..|lines| - 1]), lines[|lines| - 1].kind)
  }

  /** Only in first branches does a line count. */
  predicate Live(flags: seq<bool>) { true !in flags }

  /**
   The lines in first branches, with the directives around them; those of the other
   branches, and their else or elif, are left out.
   */
  function Kept<T>(lines: seq<Line<T>>): seq<Line<T>> {
    if lines == [] then [] else
      var rest := Kept(lines[..|lines| - 1]);
      if Live(FlagsAfter(lines)) then rest + [lines[|lines| - 1]] else rest
  }

  /** While it counts, the stack is `kept`; otherwise it was saved as `kept` at the outermost else. */
  ghost predicate Follows<S>(s: State<S>, flags: seq<bool>, kept: S) {
    && |s.pp| == |flags|
    && (forall i | 0 <= i < |flags| :: s.pp[i].seenElse == flags[i])
    && (Live(flags) ==> s.stack == kept)
    && (forall i | 0 <= i < |flags| && flags[i] && Live(flags[..i]) :: s.pp[i].beforeElse == kept)
  }

  lemma LiveParts(x: seq<bool>, y: seq<bool>)
    ensures Live(x + y) <==> Live(x) && Live(y)
  {
  }

  lemma StepFollows<T, S>(u: Effect<T, S>, empty: S, s: State<S>, flags: seq<bool>, kept: S, line: Line<T>)
    requires Follows(s, flags, kept)
    ensures var after := Flags(flags, line.kind);
            Follows(Step(u, empty, s, line), after, if Live(after) then u(line.content, kept) else kept)
  {
    match line.kind
    case If => IfFollows(empty, s, flags, kept);
    case Else => if |flags| > 0 { ElseFollows(empty, s, flags, kept); }
    case Endif => if |flags| > 0 { EndifFollows(empty, s, flags, kept); }
    case Other =>
  }

  lemma IfFollows<S>(empty: S, s: State<S>, flags: seq<bool>, kept: S)
    requires Follows(s, flags, kept)
    ensures Follows(Directive(empty, If, s), Flags(flags, If), kept) && (Live(Flags(flags, If)) <==> Live(flags))
  {
    LiveParts(flags, [false]);
    assert forall i | 0 <= i <= |flags| :: Flags(flags, If)[..i] == flags[..i];
  }

  lemma ElseFollows<S>(empty: S, s: State<S>, flags: seq<bool>, kept: S)
    requires Follows(s, flags, kept) && |flags| > 0
    ensures Follows(Directive(empty, Else, s), Flags(flags, Else), kept) && !Live(Flags(flags, Else))
  {
    var n := |flags| - 1;
    var after, top := Flags(flags, Else), Directive(empty, Else, s).pp[n];
    assert flags == flags[..n] + [flags[n]];
    LiveParts(flags[..n], [flags[n]]);
    assert after[n];
    assert Live(flags[..n]) ==> top.beforeElse == kept;
    forall i | 0 <= i < |after| && after[i] && Live(after[..i])
      ensures Directive(empty, Else, s).pp[i].beforeElse == kept
    {
      assert after[..i] == flags[..i];
    }
  }

  /** Closing a conditional, the stack counts again if nothing outside is in a later branch. */
  lemma EndifFollows<S>(empty: S, s: State<S>, flags: seq<bool>, kept: S)
    requires Follows(s, flags, kept) && |flags| > 0
    ensures Follows(Directive(empty, Endif, s), Flags(flags, Endif), kept)
  {
  }

  /** At every point of every file, well nested or not: what counts is exactly the lines that are kept. */
  lemma {:induction false} RunFollows<T, S>(u: Effect<T, S>, empty: S, stack: S, lines: seq<Line<T>>)
    ensures Follows(Run(u, empty, State(stack, []), lines), FlagsAfter(lines), Plainly(u, stack, Kept(lines)))
  {
    if lines != [] {
      var n := |lines| - 1;
      RunFollows(u, empty, stack, lines[..n]);
      StepFollows(u, empty, Run(u, empty, State(stack, []), lines[..n]), FlagsAfter(lines[..n]),
        Plainly(u, stack, Kept(lines[..n])), lines[n]);
      assert (Kept(lines[..n]) + [lines[n]])[..|Kept(lines[..n])|] == Kept(lines[..n]);
    }
  }

  /** In particular at the end of a file in which every conditional is closed. */
  lemma ClosedFile<T, S>(u: Effect<T, S>, empty: S, stack: S, lines: seq<Line<T>>)
    requires FlagsAfter(lines) == []
    ensures Run(u, empty, State(stack, []), lines) == State(Plainly(u, stack, Kept(lines)), [])
  {
    RunFollows(u, empty, stack, lines);
  }

  // ----- well-nested files -----

  /** Lines and conditionals one after the other. */
  datatype Text<T> =
    | End
    | Plain(content: T, rest: Text<T>)
    | Conditional(ifLine: T, first: Text<T>, others: Branches<T>, endLine: T, rest: Text<T>)

  datatype Branches<T> =
    | NoMore
    | Branch(elseLine: T, body: Text<T>, more: Branches<T>)

  function Lines<T>(t: Text<T>): seq<Line<T>> {
    match t
    case End => []
    case Plain(content, rest) => [Line(Other, content)] + Lines(rest)
    case Conditional(ifLine, first, others, endLine, rest) =>
      [Line(If, ifLine)] + Lines(first) + BranchLines(others) + [Line(Endif, endLine)] + Lines(rest)
  }

  function BranchLines<T>(b: Branches<T>): seq<Line<T>> {
    match b
    case NoMore => []
    case Branch(elseLine, body, more) => [Line(Else, elseLine)] + Lines(body) + BranchLines(more)
  }

  /** The same text with every branch but the first of each conditional deleted. */
  function FirstOnly<T>(t: Text<T>): Text<T> {
    match t
    case End => End
    case Plain(content, rest) => Plain(content, FirstOnly(rest))
    case Conditional(ifLine, first, others, endLine, rest) =>
      Conditional(ifLine, FirstOnly(first), NoMore, endLine, FirstOnly(rest))
  }

  lemma {:induction false} RunConcat<T, S>(u: Effect<T, S>, empty: S, s: State<S>, x: seq<Line<T>>, y: seq<Line<T>>)
    ensures Run(u, empty, s, x + y) == Run(u, empty, Run(u, empty, s, x), y)
  {
    if y == [] {
      assert x + y == x;
    } else {
      var n := |y| - 1;
      assert (x + y)[..|x + y| - 1] == x + y[..n];
      RunConcat(u, empty, s, x, y[..n]);
    }
  }

  lemma RunOne<T, S>(u: Effect<T, S>, empty: S, s: State<S>, line: Line<T>)
    ensures Run(u, empty, s, [line]) == Step(u, empty, s, line)
  {
  }

  /** The stack after a well-nested text: only first branches have an effect. */
  function Meaning<T, S>(u: Effect<T, S>, stack: S, t: Text<T>): S {
    match t
    case End => stack
    case Plain(content, rest) => Meaning(u, u(content, stack), rest)
    case Conditional(ifLine, first, others, endLine, rest) =>
      Meaning(u, u(endLine, Meaning(u, u(ifLine, stack), first)), rest)
  }

  /** A well-nested text, wherever it stands, leaves the saved states as they were. */
  lemma {:induction false} RunText<T, S>(u: Effect<T, S>, empty: S, s: State<S>, t: Text<T>)
    ensures Run(u, empty, s, Lines(t)) == State(Meaning(u, s.stack, t), s.pp)
    decreases t, 1
  {
    match t
    case End =>
    case Plain(content, rest) =>
      RunConcat(u, empty, s, [Line(Other, content)], Lines(rest));
      RunOne(u, empty, s, Line(Other, content));
      RunText(u, empty, State(u(content, s.stack), s.pp), rest);
    case Conditional(ifLine, first, others, endLine, rest) =>
      RunConditional(u, empty, s, t);
      RunConcat(u, empty, s, [Line(If, ifLine)] + Lines(first) + BranchLines(others) + [Line(Endif, endLine)],
        Lines(rest));
      RunText(u, empty, State(u(endLine, Meaning(u, u(ifLine, s.stack), first)), s.pp), rest);
  }

  lemma {:induction false} RunConditional<T, S>(u: Effect<T, S>, empty: S, s: State<S>, t: Text<T>)
    requires t.Conditional?
    ensures Run(u, empty, s, [Line(If, t.ifLine)] + Lines(t.first) + BranchLines(t.others) + [Line(Endif, t.endLine)])
         == State(u(t.endLine, Meaning(u, u(t.ifLine, s.stack), t.first)), s.pp)
    decreases t, 0
  {
    var Conditional(ifLine, first, others, endLine, _) := t;
    var x, y, z := [Line(If, ifLine)], Lines(first), BranchLines(others);
    var kept := Meaning(u, u(ifLine, s.stack), first);
    var inside := State(u(ifLine, s.stack), s.pp + [Info(s.stack, empty, false)]);
    RunOne(u, empty, s, Line(If, ifLine));
    RunConcat(u, empty, s, x, y);
    RunText(u, empty, inside, first);
    RunConcat(u, empty, s, x + y, z);
    var middle := RunBranches(u, empty, State(kept, inside.pp), s.pp, kept, others);
    RunConcat(u, empty, s, x + y + z, [Line(Endif, endLine)]);
    RunOne(u, empty, middle, Line(Endif, endLine));
  }

  /** The other branches leave the state of the first in safe keeping. */
  lemma {:induction false} RunBranches<T, S>(u: Effect<T, S>, empty: S, s: State<S>, pp: seq<Info<S>>, kept: S,
    b: Branches<T>) returns (after: State<S>)
    requires |s.pp| == |pp| + 1 && s.pp[..|pp|] == pp
    requires if s.pp[|pp|].seenElse then s.pp[|pp|].beforeElse == kept else s.stack == kept
    ensures after == Run(u, empty, s, BranchLines(b))
    ensures |after.pp| == |pp| + 1 && after.pp[..|pp|] == pp
    ensures if after.pp[|pp|].seenElse then after.pp[|pp|].beforeElse == kept else after.stack == kept
    decreases b, 0
  {
    match b
    case NoMore =>
      after := s;
    case Branch(elseLine, body, more) =>
      var x, y := [Line(Else, elseLine)], Lines(body);
      RunOne(u, empty, s, Line(Else, elseLine));
      var t := Step(u, empty, s, Line(Else, elseLine));
      RunConcat(u, empty, s, x, y);
      RunText(u, empty, t, body);
      RunConcat(u, empty, s, x + y, BranchLines(more));
      after := RunBranches(u, empty, State(Meaning(u, t.stack, body), t.pp), pp, kept, more);
  }

  /** Branches but the first might as well not be there. */
  lemma FirstBranchesDecide<T, S>(u: Effect<T, S>, empty: S, s: State<S>, t: Text<T>)
    ensures Run(u, empty, s, Lines(t)) == Run(u, empty, s, Lines(FirstOnly(t)))
    ensures Run(u, empty, s, Lines(t)).pp == s.pp
  {
    RunText(u, empty, s, t);
    RunText(u, empty, s, FirstOnly(t));
    MeaningFirst(u, s.stack, t);
  }

  lemma {:induction false} MeaningFirst<T, S>(u: Effect<T, S>, stack: S, t: Text<T>)
    ensures Meaning(u, stack, FirstOnly(t)) == Meaning(u, stack, t)
  {
    match t
    case End =>
    case Plain(content, rest) => MeaningFirst(u, u(content, stack), rest);
    case Conditional(ifLine, first, others, endLine, rest) =>
      MeaningFirst(u, u(ifLine, stack), first);
      MeaningFirst(u, u(endLine, Meaning(u, u(ifLine, stack), first)), rest);
  }
}
