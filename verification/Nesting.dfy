/**
 The nesting state kept while a file is checked: a stack of blocks, each an
 object that is updated as lines go by, and copies of the whole stack taken
 at conditionals. What regular expressions find in a line is given with it.
 */
module Nesting {
  import opened Wrappers
  import opened Preproc

  datatype Asm = NoAsm | InsideAsm | EndAsm | BlockAsm

  datatype What =
    | Brace
    | Namespace(namespaceName: string)
    | Class(className: string, isStruct: bool)

  /** What is known about a block. */
  datatype Block = Block(what: What, seenOpenBrace: bool, parentheses: int, asm: Asm, derived: bool, access: string)

  function NewBlock(what: What, seenOpenBrace: bool): Block {
    Block(what, seenOpenBrace, 0, NoAsm, false, if what.Class? && !what.isStruct then "private" else "public")
  }

  datatype Token = OpenBrace(startsAsm: bool) | Semicolon | CloseParenthesis | CloseBrace

  /** An access keyword, and the braces and semicolons, in the part of a line that is left. */
  datatype Rest = Rest(access: Option<string>, tokens: seq<Token>)

  datatype Namespacing = Namespacing(name: string, brace: bool)

  datatype Content = Content(
    parentheses: int,           // opened less closed
    startsAsm: bool,
    namespaces: seq<Namespacing>,
    classDecl: Option<What>,
    bareColon: bool,
    afterClass: Rest,           // what is left if the class declaration counts
    otherwise: Rest)            // and if it does not

  // ----- the effect of a line, on values -----

  function SetTop(s: seq<Block>, b: Block): seq<Block>
    requires s != []
  {
    s[..|s| - 1] + [b]
  }

  function Top(s: seq<Block>): Block
    requires s != []
  {
    s[|s| - 1]
  }

  /** Parentheses, and with them inline assembly, belong to the innermost block. */
  function WithParentheses(b: Block, c: Content): Block {
    var p := b.parentheses + c.parentheses;
    var asm :=
      match b.asm
      case NoAsm | EndAsm => if c.parentheses != 0 && p == 1 && c.startsAsm then InsideAsm else NoAsm
      case InsideAsm => if p == 0 then EndAsm else InsideAsm
      case BlockAsm => BlockAsm;
    b.(parentheses := p, asm := asm)
  }

  function Parentheses(s: seq<Block>, c: Content): seq<Block> {
    if s == [] then s else SetTop(s, WithParentheses(Top(s), c))
  }

  function Namespaces(s: seq<Block>, ns: seq<Namespacing>): seq<Block> {
    if ns == [] then s
    else Namespaces(s, ns[..|ns| - 1]) + [NewBlock(Namespace(ns[|ns| - 1].name), ns[|ns| - 1].brace)]
  }

  /** Inside parentheses `class` declares nothing. */
  predicate Declares(s: seq<Block>, c: Content) {
    c.classDecl.Some? && (s == [] || Top(s).parentheses == 0)
  }

  function Declared(s: seq<Block>, c: Content): seq<Block> {
    if Declares(s, c) then s + [NewBlock(c.classDecl.value, false)] else s
  }

  predicate SeenOpenBrace(s: seq<Block>) { s == [] || Top(s).seenOpenBrace }

  /** The text before the opening brace of a class may name a base class. */
  function Begun(s: seq<Block>, c: Content): seq<Block> {
    if !SeenOpenBrace(s) && Top(s).what.Class? && c.bareColon then SetTop(s, Top(s).(derived := true)) else s
  }

  function Accessed(s: seq<Block>, r: Rest): seq<Block> {
    if s != [] && Top(s).what.Class? && r.access.Some? then SetTop(s, Top(s).(access := r.access.value)) else s
  }

  function Consumed(s: seq<Block>, t: Token): seq<Block> {
    match t
    case OpenBrace(startsAsm) =>
      if !SeenOpenBrace(s) then SetTop(s, Top(s).(seenOpenBrace := true))
      else s + [NewBlock(Brace, true).(asm := if startsAsm then BlockAsm else NoAsm)]
    case Semicolon | CloseParenthesis => if SeenOpenBrace(s) then s else s[..|s| - 1]
    case CloseBrace => if s == [] then s else s[..|s| - 1]
  }

  function ConsumedAll(s: seq<Block>, ts: seq<Token>): seq<Block> {
    if ts == [] then s else Consumed(ConsumedAll(s, ts[..|ts| - 1]), ts[|ts| - 1])
  }

  lemma ConsumedMore(s: seq<Block>, ts: seq<Token>, i: nat)
    requires i < |ts|
    ensures ConsumedAll(s, ts[..i + 1]) == Consumed(ConsumedAll(s, ts[..i]), ts[i])
  {
    assert ts[..i + 1][..i] == ts[..i];
  }

  function InNamespaces(c: Content, s: seq<Block>): seq<Block> {
    Namespaces(Parentheses(s, c), c.namespaces)
  }

  function Finished(s: seq<Block>, r: Rest): seq<Block> {
    ConsumedAll(Accessed(s, r), r.tokens)
  }

  /** All that a line does to the stack. */
  function Updated(c: Content, s: seq<Block>): seq<Block> {
    Continued(c, InNamespaces(c, s))
  }

  /** A class declaration, if there is one, and the rest of the line. */
  function Continued(c: Content, s: seq<Block>): seq<Block> {
    Finished(Begun(Declared(s, c), c), if Declares(s, c) then c.afterClass else c.otherwise)
  }

  ghost predicate OfLines(effect: Effect<Content, seq<Block>>) {
    forall c, s {:trigger Updated(c, s)} :: effect(c, s) == Updated(c, s)
  }

  // ----- objects -----

  class BlockInfo {
    var now: Block

    constructor (b: Block)
      ensures now == b
    {
      now := b;
    }
  }

  /** The objects hold these values, in this order. */
  ghost predicate Mirrors(objects: seq<BlockInfo>, values: seq<Block>)
    reads objects
  {
    |objects| == |values| && forall i | 0 <= i < |objects| :: objects[i].now == values[i]
  }

  ghost predicate Distinct(objects: seq<BlockInfo>) {
    forall i, j | 0 <= i < j < |objects| :: objects[i] != objects[j]
  }

  /** No object is in both. */
  ghost predicate Apart(x: seq<BlockInfo>, y: seq<BlockInfo>) {
    forall a <- x :: a !in y
  }

  /** The stack saved before an `#if` and, from the first else on, the one saved there. */
  datatype Checkpoint = Checkpoint(beforeIf: seq<BlockInfo>, beforeElse: seq<BlockInfo>, seenElse: bool)

  /** Copies the objects, so that later changes to the originals do not show. */
  method DeepCopy(objects: seq<BlockInfo>, ghost values: seq<Block>) returns (copies: seq<BlockInfo>)
    requires Mirrors(objects, values)
    ensures Mirrors(copies, values) && Distinct(copies) && forall x <- copies :: fresh(x)
  {
    copies := [];
    for i := 0 to |objects|
      invariant |copies| == i && Distinct(copies) && (forall x <- copies :: fresh(x))
      invariant forall k | 0 <= k < i :: copies[k].now == values[k]
    {
      var copy := new BlockInfo(objects[i].now);
      copies := copies + [copy];
    }
  }

  class BlockStack {
    var objects: seq<BlockInfo>
    ghost var values: seq<Block>

    ghost predicate Valid()
      reads this, objects
    {
      Mirrors(objects, values) && Distinct(objects)
    }

    /** Only objects that were there before, and new ones. */
    twostate predicate Kin()
      reads this
    {
      forall i | 0 <= i < |objects| :: objects[i] in old(objects) || fresh(objects[i])
    }

    constructor ()
      ensures Valid() && objects == [] && values == []
    {
      objects, values := [], [];
    }

    method Set(b: Block)
      requires Valid() && objects != []
      modifies this`values, objects
      ensures Valid() && objects == old(objects) && values == SetTop(old(values), b)
    {
      objects[|objects| - 1].now := b;
      values := SetTop(values, b);
    }

    method Push(b: Block)
      requires Valid()
      modifies this
      ensures Valid() && Kin() && values == old(values) + [b]
    {
      var o := new BlockInfo(b);
      objects := objects + [o];
      values := values + [b];
    }

    method Pop()
      requires Valid() && objects != []
      modifies this
      ensures Valid() && Kin() && values == old(values)[..|old(values)| - 1]
    {
      objects := objects[..|objects| - 1];
      values := values[..|values| - 1];
    }

    method CountParentheses(c: Content)
      requires Valid()
      modifies this`values, objects
      ensures Valid() && Kin() && values == Parentheses(old(values), c) && objects == old(objects)
    {
      if objects != [] {
        var inner := objects[|objects| - 1].now;
        var parentheses, asm := inner.parentheses + c.parentheses, inner.asm;
        if asm == NoAsm || asm == EndAsm {
          if c.parentheses != 0 && parentheses == 1 && c.startsAsm {
            asm := InsideAsm;
          } else {
            asm := NoAsm;
          }
        } else if asm == InsideAsm && parentheses == 0 {
          asm := EndAsm;
        }
        Set(inner.(parentheses := parentheses, asm := asm));
      }
    }

    method PushNamespaces(ns: seq<Namespacing>)
      requires Valid()
      modifies this
      ensures Valid() && Kin() && values == Namespaces(old(values), ns)
    {
      var i := 0;
      assert ns[..0] == [];
      while i < |ns|
        invariant i <= |ns| && Valid() && Kin() && values == Namespaces(old(values), ns[..i])
      {
        assert ns[..i + 1][..i] == ns[..i];
        Push(NewBlock(Namespace(ns[i].name), ns[i].brace));
        i := i + 1;
      }
      assert ns[..|ns|] == ns;
    }

    method DeclareClass(c: Content) returns (rest: Rest)
      requires Valid()
      modifies this
      ensures Valid() && Kin() && values == Declared(old(values), c)
      ensures rest == if Declares(old(values), c) then c.afterClass else c.otherwise
    {
      rest := c.otherwise;
      if c.classDecl.Some? && (objects == [] || objects[|objects| - 1].now.parentheses == 0) {
        Push(NewBlock(c.classDecl.value, false));
        rest := c.afterClass;
      }
    }

    method CheckBegin(c: Content)
      requires Valid()
      modifies this`values, objects
      ensures Valid() && Kin() && values == Begun(old(values), c) && objects == old(objects)
    {
      if objects != [] {
        var top := objects[|objects| - 1].now;
        if !top.seenOpenBrace && top.what.Class? && c.bareColon {
          Set(top.(derived := true));
        }
      }
    }

    method NoteAccess(r: Rest)
      requires Valid()
      modifies this`values, objects
      ensures Valid() && Kin() && values == Accessed(old(values), r) && objects == old(objects)
    {
      if objects != [] {
        var top := objects[|objects| - 1].now;
        if top.what.Class? && r.access.Some? {
          Set(top.(access := r.access.value));
        }
      }
    }

    method Consume(t: Token)
      requires Valid()
      modifies this, objects
      ensures Valid() && Kin() && values == Consumed(old(values), t)
    {
      var seen := objects == [] || objects[|objects| - 1].now.seenOpenBrace;
      match t
      case OpenBrace(startsAsm) =>
        if !seen {
          Set(objects[|objects| - 1].now.(seenOpenBrace := true));
        } else {
          Push(NewBlock(Brace, true));
          if startsAsm {
            Set(objects[|objects| - 1].now.(asm := BlockAsm));
          }
        }
      case Semicolon =>
        if !seen {
          Pop();
        }
      case CloseParenthesis =>
        if !seen {
          Pop();
        }
      case CloseBrace =>
        if objects != [] {
          Pop();
        }
    }

    method ConsumeAll(ts: seq<Token>)
      requires Valid()
      modifies this, objects
      ensures Valid() && Kin() && values == ConsumedAll(old(values), ts)
    {
      var i := 0;
      assert ts[..0] == [];
      while i < |ts|
        invariant i <= |ts| && Valid() && Kin() && values == ConsumedAll(old(values), ts[..i])
      {
        ConsumedMore(old(values), ts, i);
        Consume(ts[i]);
        i := i + 1;
      }
      assert ts[..|ts|] == ts;
    }

    /** `effect` is what lines do. */
    method Update(c: Content, ghost effect: Effect<Content, seq<Block>>)
      requires Valid() && OfLines(effect)
      modifies this, objects
      ensures Valid() && Kin() && values == effect(c, old(values))
    {
      assert effect(c, values) == Updated(c, values);
      EnterNamespaces(c);
      Continue(c);
    }

    method Continue(c: Content)
      requires Valid()
      modifies this, objects
      ensures Valid() && Kin() && values == Continued(c, old(values))
    {
      var rest := DeclareClass(c);
      CheckBegin(c);
      Finish(rest);
    }

    method EnterNamespaces(c: Content)
      requires Valid()
      modifies this, objects
      ensures Valid() && Kin() && values == InNamespaces(c, old(values))
    {
      CountParentheses(c);
      PushNamespaces(c.namespaces);
    }

    method Finish(rest: Rest)
      requires Valid()
      modifies this, objects
      ensures Valid() && Kin() && values == Finished(old(values), rest)
    {
      NoteAccess(rest);
      ConsumeAll(rest.tokens);
    }

    /** Takes over other objects. */
    method Become(o: seq<BlockInfo>, ghost v: seq<Block>)
      requires Mirrors(o, v) && Distinct(o)
      modifies this
      ensures Valid() && objects == o && values == v
    {
      objects, values := o, v;
    }
  }

  // ----- the whole state -----

  /** A checkpoint holds these values. */
  ghost predicate Keeps(c: Checkpoint, v: Info<seq<Block>>)
    reads c.beforeIf, c.beforeElse
  {
    && Mirrors(c.beforeIf, v.beforeIf) && Mirrors(c.beforeElse, v.beforeElse)
    && c.seenElse == v.seenElse && Distinct(c.beforeElse)
  }

  ghost predicate Clear(x: seq<BlockInfo>, c: Checkpoint) {
    Apart(x, c.beforeIf) && Apart(x, c.beforeElse)
  }

  ghost predicate Inside(x: seq<BlockInfo>, repr: set<BlockInfo>) {
    forall o <- x :: o in repr
  }

  class NestingState {
    const stack: BlockStack
    var ppStack: seq<Checkpoint>
    ghost var saved: seq<Info<seq<Block>>>
    ghost var repr: set<BlockInfo>

    /** Nothing saved is on the stack, nor saved twice where it may be put back. */
    ghost predicate Valid()
      reads this, stack, repr
    {
      && Inside(stack.objects, repr) && stack.Valid()
      && |ppStack| == |saved|
      && (forall i | 0 <= i < |ppStack| ::
         Inside(ppStack[i].beforeIf, repr) && Inside(ppStack[i].beforeElse, repr) && Keeps(ppStack[i], saved[i]))
      && (forall i | 0 <= i < |ppStack| :: Clear(stack.objects, ppStack[i]))
      && (forall i, j | 0 <= j < i < |ppStack| :: Clear(ppStack[i].beforeElse, ppStack[j]))
    }

    ghost function Model(): State<seq<Block>>
      reads this, stack
    {
      State(stack.values, saved)
    }

    constructor ()
      ensures Valid() && Model() == State([], []) && fresh(stack) && fresh(repr)
    {
      stack := new BlockStack();
      ppStack, saved, repr := [], [], {};
    }

    method OnIf()
      requires Valid()
      modifies this
      ensures Valid() && fresh(repr - old(repr))
      ensures Model() == Directive([], If, old(Model()))
    {
      var copies := DeepCopy(stack.objects, stack.values);
      ppStack := ppStack + [Checkpoint(copies, [], false)];
      saved := saved + [Info(stack.values, [], false)];
      repr := repr + (set o <- copies);
    }

    method OnElse()
      requires Valid()
      modifies this, stack
      ensures Valid() && fresh(repr - old(repr))
      ensures Model() == Directive([], Else, old(Model()))
    {
      if ppStack != [] {
        SaveAtElse();
        Restore();
      }
    }

    /** At the first else of a conditional the stack is what will be kept. */
    method SaveAtElse()
      requires Valid() && ppStack != []
      modifies this
      ensures Valid() && |ppStack| == old(|ppStack|) && fresh(repr - old(repr))
      ensures var n := |saved| - 1;
              saved == old(saved)[..n] + [if old(saved)[n].seenElse then old(saved)[n]
                else old(saved)[n].(seenElse := true, beforeElse := stack.values)]
    {
      var n := |ppStack| - 1;
      if !ppStack[n].seenElse {
        var copies := DeepCopy(stack.objects, stack.values);
        Remember(copies);
      }
    }

    /** Saves new objects at the else of the innermost conditional. */
    method Remember(copies: seq<BlockInfo>)
      requires Valid() && ppStack != [] && Mirrors(copies, stack.values) && Distinct(copies)
      requires forall o <- copies :: o !in repr
      modifies this
      ensures Valid() && |ppStack| == old(|ppStack|) && repr == old(repr) + (set o <- copies)
      ensures saved == old(saved)[..|saved| - 1]
              + [old(saved)[|saved| - 1].(seenElse := true, beforeElse := stack.values)]
    {
      var n := |ppStack| - 1;
      ppStack := ppStack[..n] + [ppStack[n].(beforeElse := copies, seenElse := true)];
      saved := saved[..n] + [saved[n].(beforeElse := stack.values, seenElse := true)];
      repr := repr + (set o <- copies);
      assert forall i | 0 <= i < n :: ppStack[i] == old(ppStack)[i] && saved[i] == old(saved)[i];
    }

    /** The stack becomes a copy of what it was before the `#if`. */
    method Restore()
      requires Valid() && ppStack != []
      modifies this`repr, stack
      ensures Valid() && fresh(repr - old(repr))
      ensures stack.values == saved[|saved| - 1].beforeIf
    {
      var n := |ppStack| - 1;
      var copies := DeepCopy(ppStack[n].beforeIf, saved[n].beforeIf);
      stack.Become(copies, saved[n].beforeIf);
      repr := repr + (set o <- copies);
    }

    method OnEndif()
      requires Valid()
      modifies this, stack
      ensures Valid() && repr == old(repr)
      ensures Model() == Directive([], Endif, old(Model()))
    {
      if ppStack != [] {
        var n := |ppStack| - 1;
        if ppStack[n].seenElse {
          stack.Become(ppStack[n].beforeElse, saved[n].beforeElse);
        }
        ppStack, saved := ppStack[..n], saved[..n];
      }
    }

    method UpdatePreprocessor(kind: Kind)
      requires Valid()
      modifies this, stack
      ensures Valid() && fresh(repr - old(repr))
      ensures Model() == Directive([], kind, old(Model()))
    {
      match kind
      case If => OnIf();
      case Else => OnElse();
      case Endif => OnEndif();
      case Other =>
    }

    /** A line: its directive first, then its effect on the stack that is current after that. */
    method Update(line: Line<Content>, ghost effect: Effect<Content, seq<Block>>)
      requires Valid() && OfLines(effect)
      modifies this, stack, repr
      ensures Valid() && fresh(repr - old(repr))
      ensures Model() == Step(effect, [], old(Model()), line)
    {
      UpdatePreprocessor(line.kind);
      UpdateStack(line.content, effect);
    }

    /** Only objects on the stack change; nothing that was saved is reached through another name. */
    method UpdateStack(c: Content, ghost effect: Effect<Content, seq<Block>>)
      requires Valid() && OfLines(effect)
      modifies this`repr, stack, stack.objects
      ensures Valid() && fresh(repr - old(repr))
      ensures saved == old(saved) && stack.values == effect(c, old(stack.values))
    {
      ghost var objects := stack.objects;
      stack.Update(c, effect);
      repr := repr + (set o <- stack.objects);
      forall i | 0 <= i < |ppStack|
        ensures Keeps(ppStack[i], saved[i]) && Clear(stack.objects, ppStack[i])
      {
        assert Clear(objects, ppStack[i]) && old(Keeps(ppStack[i], saved[i]));
        Untouched(objects, ppStack[i].beforeIf);
        Untouched(objects, ppStack[i].beforeElse);
      }
    }
  }

  /** What is apart from the objects that may have changed has not changed. */
  twostate lemma Untouched(objects: seq<BlockInfo>, new x: seq<BlockInfo>)
    requires Apart(objects, x) && forall o: BlockInfo | o !in objects && old(allocated(o)) :: o.now == old(o.now)
    requires forall i | 0 <= i < |x| :: old(allocated(x[i]))
    ensures forall i | 0 <= i < |x| :: x[i].now == old(x[i].now)
  {
    forall i | 0 <= i < |x|
      ensures x[i].now == old(x[i].now)
    {
      assert x[i] in x;
      assert x[i] !in objects;
    }
  }

  /** A line of a file with what is found in it. */
  function LineOf(text: string, content: Content): Line<Content> {
    Line(KindOf(text), content)
  }

  /**
   A whole file. In the end the stack has followed exactly the lines in first
   branches, and if every conditional is closed nothing else is left.
   */
  method CheckFile(texts: seq<string>, contents: seq<Content>)
    returns (state: NestingState, ghost lines: seq<Line<Content>>)
    requires |texts| == |contents|
    ensures |lines| == |texts| && forall i | 0 <= i < |lines| :: lines[i] == LineOf(texts[i], contents[i])
    ensures fresh(state) && state.Valid()
    ensures Follows(state.Model(), FlagsAfter(lines), Plainly(Updated, [], Kept(lines)))
    ensures FlagsAfter(lines) == [] ==> state.Model() == State(Plainly(Updated, [], Kept(lines)), [])
  {
    lines := seq(|texts|, i requires 0 <= i < |texts| => LineOf(texts[i], contents[i]));
    state := FollowFile(texts, contents, lines, Updated);
    RunFollows(Updated, [], [], lines);
  }

  method FollowFile(texts: seq<string>, contents: seq<Content>, ghost lines: seq<Line<Content>>,
    ghost effect: Effect<Content, seq<Block>>)
    returns (state: NestingState)
    requires |texts| == |contents| == |lines| && forall i | 0 <= i < |lines| ::
             lines[i] == LineOf(texts[i], contents[i])
    requires OfLines(effect)
    ensures fresh(state) && state.Valid() && state.Model() == Run(effect, [], State([], []), lines)
  {
    state := new NestingState();
    for i := 0 to |texts|
      invariant fresh(state) && fresh(state.stack) && fresh(state.repr) && state.Valid()
      invariant state.Model() == Run(effect, [], State([], []), lines[..i])
    {
      assert lines[..i + 1][..i] == lines[..i];
      state.Update(LineOf(texts[i], contents[i]), effect);
    }
    assert lines[..|texts|] == lines;
  }
}
