/**
 What lines do to the stack of blocks, said of the lines and without the
 steps by which the program gets there.
 */
module NestingLaws {
  import opened Wrappers
  import opened Preproc
  import opened Nesting

  /** The stack after some lines. */
  function After(s: seq<Block>, cs: seq<Content>): seq<Block>
    decreases |cs|
  {
    if cs == [] then s else After(Updated(cs[0], s), cs[1..])
  }

  /** The same for any effect. */
  function AfterBy<T, S>(effect: Effect<T, S>, s: S, cs: seq<T>): S
    decreases |cs|
  {
    if cs == [] then s else AfterBy(effect, effect(cs[0], s), cs[1..])
  }

  lemma {:induction false} AfterOneMore<T, S>(effect: Effect<T, S>, s: S, cs: seq<T>, c: T)
    ensures AfterBy(effect, s, cs + [c]) == effect(c, AfterBy(effect, s, cs))
    decreases |cs|
  {
    if cs == [] {
      assert [c][1..] == [] && cs + [c] == [c];
      assert AfterBy(effect, s, [c]) == AfterBy(effect, effect(c, s), []);
    } else {
      assert (cs + [c])[0] == cs[0] && (cs + [c])[1..] == cs[1..] + [c];
      AfterOneMore(effect, effect(cs[0], s), cs[1..], c);
    }
  }

  lemma {:induction false} PlainlyBy<T, S>(effect: Effect<T, S>, s: S, lines: seq<Line<T>>, cs: seq<T>)
    requires |cs| == |lines| && forall i | 0 <= i < |cs| :: cs[i] == lines[i].content
    ensures Plainly(effect, s, lines) == AfterBy(effect, s, cs)
    decreases |cs|
  {
    if cs != [] {
      var n := |cs| - 1;
      PlainlyBy(effect, s, lines[..n], cs[..n]);
      AfterOneMore(effect, s, cs[..n], cs[n]);
      assert cs[..n] + [cs[n]] == cs;
    }
  }

  lemma {:induction false} AfterByUpdated(effect: Effect<Content, seq<Block>>, s: seq<Block>, cs: seq<Content>)
    requires OfLines(effect)
    ensures AfterBy(effect, s, cs) == After(s, cs)
    decreases |cs|
  {
    if cs != [] {
      var t := effect(cs[0], s);
      assert t == Updated(cs[0], s);
      AfterByUpdated(effect, t, cs[1..]);
    }
  }

  /** These are the stacks that a checked file is said to have. */
  lemma AfterPlainly(s: seq<Block>, lines: seq<Line<Content>>, cs: seq<Content>)
    requires |cs| == |lines| && forall i | 0 <= i < |cs| :: cs[i] == lines[i].content
    ensures Plainly(Updated, s, lines) == After(s, cs)
  {
    PlainlyBy(Updated, s, lines, cs);
    AfterByUpdated(Updated, s, cs);
  }

  // ----- single lines -----

  /** Nothing on the line but tokens, and parentheses that balance. */
  function Tokens(ts: seq<Token>): Content {
    Content(0, false, [], None, false, Rest(None, ts), Rest(None, ts))
  }

  /** No inline assembly between parentheses is under way or just over. */
  predicate Quiet(s: seq<Block>) {
    forall b <- s :: b.asm == NoAsm || b.asm == BlockAsm
  }

  lemma OneToken(s: seq<Block>, t: Token)
    requires Quiet(s)
    ensures Updated(Tokens([t]), s) == Consumed(s, t)
  {
    QuietLine(s, Tokens([t]));
    assert ConsumedAll(s, [t][..0]) == s;
  }

  /** A line without parentheses does not matter to the parentheses. */
  lemma QuietLine(s: seq<Block>, c: Content)
    requires Quiet(s) && c.parentheses == 0
    ensures Parentheses(s, c) == s
  {
    if s != [] {
      assert Top(s) in s;
    }
  }

  /** A lone opening brace begins a block of its own, or it is the one that a head was waiting for. */
  lemma OpeningBrace(s: seq<Block>, startsAsm: bool)
    requires Quiet(s)
    ensures var after := Updated(Tokens([OpenBrace(startsAsm)]), s);
            if s == [] || s[|s| - 1].seenOpenBrace then
              after == s + [Block(Brace, true, 0, if startsAsm then BlockAsm else NoAsm, false, "public")]
            else
              |after| == |s| && after[..|s| - 1] == s[..|s| - 1]
              && after[|s| - 1] == s[|s| - 1].(seenOpenBrace := true)
  {
    OneToken(s, OpenBrace(startsAsm));
  }

  /** A lone closing brace ends the innermost block, if there is one. */
  lemma ClosingBrace(s: seq<Block>)
    requires Quiet(s)
    ensures Updated(Tokens([CloseBrace]), s) == if s == [] then [] else s[..|s| - 1]
  {
    OneToken(s, CloseBrace);
  }

  /** A semicolon or closing parenthesis gives up a head that waits for its brace, and does nothing else. */
  lemma GivingUp(s: seq<Block>, t: Token)
    requires Quiet(s) && (t == Semicolon || t == CloseParenthesis)
    ensures Updated(Tokens([t]), s) == if s != [] && !s[|s| - 1].seenOpenBrace then s[..|s| - 1] else s
  {
    OneToken(s, t);
  }

  // ----- parentheses and inline assembly -----

  /** Nothing but parentheses on the line, and perhaps the beginning of inline assembly. */
  predicate Bare(c: Content) {
    c.namespaces == [] && c.classDecl == None && !c.bareColon && c.otherwise == Rest(None, [])
  }

  function Sum(cs: seq<Content>): int {
    if cs == [] then 0 else cs[0].parentheses + Sum(cs[1..])
  }

  /** The innermost block counts the parentheses line by line; no other block, and nothing else of it, changes. */
  lemma {:induction false} ParenthesesAdd(s: seq<Block>, cs: seq<Content>)
    requires forall c <- cs :: Bare(c)
    ensures |After(s, cs)| == |s|
    ensures s != [] ==> After(s, cs)[..|s| - 1] == s[..|s| - 1]
    ensures s != [] ==>
              Top(After(s, cs)) == Top(s).(parentheses := Top(s).parentheses + Sum(cs), asm := Top(After(s, cs)).asm)
    decreases |cs|
  {
    if cs != [] {
      assert Bare(cs[0]);
      ParenthesesAdd(Updated(cs[0], s), cs[1..]);
    }
  }

  /** Inline assembly is entered at one parenthesis and left at none; a block of assembly stays one. */
  lemma AssemblyChanges(s: seq<Block>, c: Content)
    requires Bare(c) && s != []
    ensures |Updated(c, s)| == |s|
    ensures var was, now := Top(s), Top(Updated(c, s));
            var p := was.parentheses + c.parentheses;
            && (now.asm == InsideAsm <==>
                (was.asm == InsideAsm && p != 0) ||
                ((was.asm == NoAsm || was.asm == EndAsm) && c.startsAsm && c.parentheses != 0 && p == 1))
            && (now.asm == EndAsm <==> was.asm == InsideAsm && p == 0)
            && (now.asm == BlockAsm <==> was.asm == BlockAsm)
  {
  }

  /** Assembly that has begun goes on over any lines until its parentheses are closed, and is over then. */
  lemma {:induction false} AssemblyRuns(s: seq<Block>, cs: seq<Content>)
    requires s != [] && Top(s).asm == InsideAsm && cs != [] && forall c <- cs :: Bare(c)
    requires forall i | 0 < i < |cs| :: Top(s).parentheses + Sum(cs[..i]) != 0
    ensures |After(s, cs)| == |s|
    ensures Top(After(s, cs)).asm == if Top(s).parentheses + Sum(cs) == 0 then EndAsm else InsideAsm
    decreases |cs|
  {
    assert Bare(cs[0]);
    var t := Updated(cs[0], s);
    AssemblyChanges(s, cs[0]);
    assert cs == [cs[0]] + cs[1..];
    if |cs| > 1 {
      assert cs[..1] == [cs[0]] && Sum(cs[..1]) == cs[0].parentheses;
      forall i | 0 < i < |cs| - 1
        ensures Top(t).parentheses + Sum(cs[1..][..i]) != 0
      {
        assert cs[..i + 1][1..] == cs[1..][..i];
      }
      AssemblyRuns(t, cs[1..]);
    }
  }

  // ----- heads, bodies and ends -----

  /** Braces that match, with whatever semicolons and closing parentheses there are between them. */
  datatype Body =
    | Done
    | Mark(isSemicolon: bool, rest: Body)
    | Braced(startsAsm: bool, inside: Body, rest: Body)

  function Written(b: Body): seq<Token> {
    match b
    case Done => []
    case Mark(isSemicolon, rest) => [if isSemicolon then Semicolon else CloseParenthesis] + Written(rest)
    case Braced(startsAsm, inside, rest) => [OpenBrace(startsAsm)] + Written(inside) + [CloseBrace] + Written(rest)
  }

  lemma {:induction false} ConsumedConcat(s: seq<Block>, x: seq<Token>, y: seq<Token>)
    ensures ConsumedAll(s, x + y) == ConsumedAll(ConsumedAll(s, x), y)
    decreases |y|
  {
    if y == [] {
      assert x + y == x;
    } else {
      assert (x + y)[..|x + y| - 1] == x + y[..|y| - 1];
      ConsumedConcat(s, x, y[..|y| - 1]);
    }
  }

  lemma ConsumedOne(s: seq<Block>, t: Token)
    ensures ConsumedAll(s, [t]) == Consumed(s, t)
  {
    assert ConsumedAll(s, [t][..0]) == s;
  }

  lemma ConsumedBraced(s: seq<Block>, open: Token, inside: seq<Token>)
    requires open.OpenBrace? && SeenOpenBrace(s)
    requires ConsumedAll(Consumed(s, open), inside) == Consumed(s, open)
    ensures ConsumedAll(s, [open] + inside + [CloseBrace]) == s
  {
    ConsumedOne(s, open);
    ConsumedConcat(s, [open], inside);
    ConsumedConcat(s, [open] + inside, [CloseBrace]);
    ConsumedOne(Consumed(s, open), CloseBrace);
  }

  /** Text in which braces match leaves the stack as it was, unless a head is waiting for its brace. */
  lemma {:induction false} BalancedTokens(s: seq<Block>, b: Body)
    requires SeenOpenBrace(s)
    ensures ConsumedAll(s, Written(b)) == s
    decreases b
  {
    match b
    case Done =>
    case Mark(isSemicolon, rest) =>
      var t := if isSemicolon then Semicolon else CloseParenthesis;
      ConsumedOne(s, t);
      ConsumedConcat(s, [t], Written(rest));
      BalancedTokens(s, rest);
    case Braced(startsAsm, inside, rest) =>
      BalancedTokens(Consumed(s, OpenBrace(startsAsm)), inside);
      ConsumedBraced(s, OpenBrace(startsAsm), Written(inside));
      ConsumedConcat(s, [OpenBrace(startsAsm)] + Written(inside) + [CloseBrace], Written(rest));
      BalancedTokens(s, rest);
  }

  predicate TokenLine(c: Content) {
    c.parentheses == 0 && c.namespaces == [] && c.classDecl == None && !c.bareColon && c.otherwise.access == None
  }

  function AllTokens(cs: seq<Content>): seq<Token> {
    if cs == [] then [] else cs[0].otherwise.tokens + AllTokens(cs[1..])
  }

  lemma {:induction false} StaysQuiet(s: seq<Block>, ts: seq<Token>)
    requires Quiet(s)
    ensures Quiet(ConsumedAll(s, ts))
  {
    if ts != [] {
      var t := ConsumedAll(s, ts[..|ts| - 1]);
      StaysQuiet(s, ts[..|ts| - 1]);
      assert t != [] ==> Top(t) in t;
    }
  }

  /** It does not matter how tokens are spread over lines. */
  lemma {:induction false} TokenLines(s: seq<Block>, cs: seq<Content>)
    requires Quiet(s) && forall c <- cs :: TokenLine(c)
    ensures After(s, cs) == ConsumedAll(s, AllTokens(cs))
    decreases |cs|
  {
    if cs != [] {
      assert TokenLine(cs[0]);
      QuietLine(s, cs[0]);
      var ts := cs[0].otherwise.tokens;
      assert Updated(cs[0], s) == ConsumedAll(s, ts);
      StaysQuiet(s, ts);
      TokenLines(ConsumedAll(s, ts), cs[1..]);
      ConsumedConcat(s, ts, AllTokens(cs[1..]));
    }
  }

  /** The parentheses of a line, and nothing else of it. */
  function Parenthesised(c: Content): Content {
    c.(namespaces := [], classDecl := None, bareColon := false, otherwise := Rest(None, []))
  }

  /** The stack when a class declared on line `c` is not inside parentheses. */
  predicate Outside(s: seq<Block>, c: Content) {
    s == [] || Top(s).parentheses + c.parentheses == 0
  }

  /** Lines that match braces leave the stack as it was. */
  lemma BalancedLines(s: seq<Block>, cs: seq<Content>, b: Body)
    requires Quiet(s) && (s == [] || Top(s).seenOpenBrace)
    requires (forall c <- cs :: TokenLine(c)) && AllTokens(cs) == Written(b)
    ensures After(s, cs) == s
  {
    TokenLines(s, cs);
    BalancedTokens(s, b);
  }

  lemma ParenthesesOnly(s: seq<Block>, c: Content)
    ensures Updated(Parenthesised(c), s) == Parentheses(s, c)
  {
    var t := Parentheses(s, c);
    var bare := Parenthesised(c);
    assert Parentheses(s, bare) == t;
    assert InNamespaces(bare, s) == t;
  }

  /** A class head outside parentheses puts one block on the stack, whatever else the line says. */
  lemma HeadPushed(t: seq<Block>, head: Content) returns (k: Block)
    requires head.classDecl.Some? && (t == [] || Top(t).parentheses == 0)
    ensures !k.seenOpenBrace && k.asm == NoAsm
    ensures Continued(head, t) == ConsumedAll(t + [k], head.afterClass.tokens)
  {
    var declared := t + [NewBlock(head.classDecl.value, false)];
    var begun := Begun(declared, head);
    assert begun[..|t|] == t;
    k := Top(Accessed(begun, head.afterClass));
    assert Accessed(begun, head.afterClass) == t + [k];
  }

  /** A class head and what follows it come down to one more block and the tokens. */
  lemma HeadLines(s: seq<Block>, head: Content, cs: seq<Content>) returns (k: Block)
    requires head.namespaces == [] && head.classDecl.Some? && Outside(s, head)
    requires forall c <- cs :: TokenLine(c)
    requires cs == [] || Quiet(Updated(Parenthesised(head), s))
    ensures !k.seenOpenBrace && (k.asm == NoAsm)
    ensures After(s, [head] + cs)
         == ConsumedAll(Updated(Parenthesised(head), s) + [k], head.afterClass.tokens + AllTokens(cs))
  {
    var t := Updated(Parenthesised(head), s);
    ParenthesesOnly(s, head);
    k := HeadPushed(t, head);
    var ts := head.afterClass.tokens;
    assert ([head] + cs)[1..] == cs;
    assert Updated(head, s) == Continued(head, t);
    if cs == [] {
      assert ts + AllTokens(cs) == ts;
    } else {
      StaysQuiet(t + [k], ts);
      TokenLines(ConsumedAll(t + [k], ts), cs);
      ConsumedConcat(t + [k], ts, AllTokens(cs));
    }
  }

  /** A head given up at once, and then text in which braces match. */
  lemma Forward(s: seq<Block>, k: Block, t: Token, after: Body)
    requires !k.seenOpenBrace && (t == Semicolon || t == CloseParenthesis)
    requires after == Done || SeenOpenBrace(s)
    ensures ConsumedAll(s + [k], [t] + Written(after)) == s
  {
    ConsumedOne(s + [k], t);
    ConsumedConcat(s + [k], [t], Written(after));
    if after != Done {
      BalancedTokens(s, after);
    }
  }

  /** A head with its braces, and then more text in which braces match. */
  lemma Complete(s: seq<Block>, k: Block, startsAsm: bool, inside: Body, after: Body)
    requires !k.seenOpenBrace && (after == Done || SeenOpenBrace(s))
    ensures ConsumedAll(s + [k], [OpenBrace(startsAsm)] + Written(inside) + [CloseBrace] + Written(after)) == s
  {
    var open := OpenBrace(startsAsm);
    var begun := s + [k.(seenOpenBrace := true)];
    ConsumedOne(s + [k], open);
    ConsumedConcat(s + [k], [open], Written(inside));
    BalancedTokens(begun, inside);
    ConsumedConcat(s + [k], [open] + Written(inside), [CloseBrace]);
    ConsumedOne(begun, CloseBrace);
    ConsumedConcat(s + [k], [open] + Written(inside) + [CloseBrace], Written(after));
    if after != Done {
      BalancedTokens(s, after);
    }
  }

  /**
   A forward declaration, ended by a semicolon, and a parameter with `class` in it, ended by a
   parenthesis, are gone when they end, on whatever line that is.
   */
  lemma ForwardDeclaration(s: seq<Block>, head: Content, cs: seq<Content>, t: Token, after: Body)
    requires head.namespaces == [] && head.classDecl.Some? && Outside(s, head)
    requires forall c <- cs :: TokenLine(c)
    requires cs == [] || Quiet(Updated(Parenthesised(head), s))
    requires (t == Semicolon || t == CloseParenthesis) && (after == Done || s == [] || Top(s).seenOpenBrace)
    requires head.afterClass.tokens + AllTokens(cs) == [t] + Written(after)
    ensures After(s, [head] + cs) == Updated(Parenthesised(head), s)
  {
    var k := HeadLines(s, head, cs);
    Forward(Updated(Parenthesised(head), s), k, t, after);
  }

  /** A class with its body, on one line or on many, leaves the stack as it was. */
  lemma WholeClass(s: seq<Block>, head: Content, cs: seq<Content>, startsAsm: bool, inside: Body, after: Body)
    requires head.namespaces == [] && head.classDecl.Some? && Outside(s, head)
    requires forall c <- cs :: TokenLine(c)
    requires cs == [] || Quiet(Updated(Parenthesised(head), s))
    requires after == Done || s == [] || Top(s).seenOpenBrace
    requires head.afterClass.tokens + AllTokens(cs)
          == [OpenBrace(startsAsm)] + Written(inside) + [CloseBrace] + Written(after)
    ensures After(s, [head] + cs) == Updated(Parenthesised(head), s)
  {
    var k := HeadLines(s, head, cs);
    Complete(Updated(Parenthesised(head), s), k, startsAsm, inside, after);
  }

  /** The heads of namespaces and what follows them come down to as many blocks and the tokens. */
  lemma NamespaceLines(s: seq<Block>, head: Content, cs: seq<Content>)
    requires head.namespaces != [] && head.classDecl == None
    requires forall c <- cs :: TokenLine(c)
    requires cs == [] || Quiet(Updated(Parenthesised(head), s))
    ensures After(s, [head] + cs)
         == ConsumedAll(Namespaces(Updated(Parenthesised(head), s), head.namespaces),
                        head.otherwise.tokens + AllTokens(cs))
  {
    var t := Updated(Parenthesised(head), s);
    ParenthesesOnly(s, head);
    var inner := Namespaces(t, head.namespaces);
    var ts := head.otherwise.tokens;
    assert ([head] + cs)[1..] == cs;
    assert Updated(head, s) == ConsumedAll(inner, ts);
    if cs == [] {
      assert ts + AllTokens(cs) == ts;
    } else {
      NamespacesQuiet(t, head.namespaces);
      StaysQuiet(inner, ts);
      TokenLines(ConsumedAll(inner, ts), cs);
      ConsumedConcat(inner, ts, AllTokens(cs));
    }
  }

  lemma {:induction false} NamespacesQuiet(s: seq<Block>, ns: seq<Namespacing>)
    requires Quiet(s)
    ensures Quiet(Namespaces(s, ns))
  {
    if ns != [] {
      NamespacesQuiet(s, ns[..|ns| - 1]);
    }
  }

  /** Bodies, each ended by a brace. */
  function Closings(bodies: seq<Body>): seq<Token> {
    if bodies == [] then [] else Written(bodies[0]) + [CloseBrace] + Closings(bodies[1..])
  }

  lemma {:induction false} NamespacesClosed(s: seq<Block>, ns: seq<Namespacing>, bodies: seq<Body>)
    requires |bodies| == |ns| && forall n <- ns :: n.brace
    ensures ConsumedAll(Namespaces(s, ns), Closings(bodies)) == s
    decreases |ns|
  {
    if ns != [] {
      var n := |ns| - 1;
      var inner := Namespaces(s, ns);
      var body, rest := Written(bodies[0]), Closings(bodies[1..]);
      assert ns[n] in ns && Top(inner).seenOpenBrace;
      BalancedTokens(inner, bodies[0]);
      ConsumedConcat(inner, body, [CloseBrace]);
      ConsumedOne(inner, CloseBrace);
      ConsumedConcat(inner, body + [CloseBrace], rest);
      assert inner[..|inner| - 1] == Namespaces(s, ns[..n]);
      NamespacesClosed(s, ns[..n], bodies[1..]);
    }
  }

  /** Namespaces opened on one line and closed one after the other leave the stack as it was. */
  lemma WholeNamespaces(s: seq<Block>, head: Content, cs: seq<Content>, bodies: seq<Body>, after: Body)
    requires head.namespaces != [] && head.classDecl == None && forall n <- head.namespaces :: n.brace
    requires forall c <- cs :: TokenLine(c)
    requires cs == [] || Quiet(Updated(Parenthesised(head), s))
    requires |bodies| == |head.namespaces| && (after == Done || s == [] || Top(s).seenOpenBrace)
    requires head.otherwise.tokens + AllTokens(cs) == Closings(bodies) + Written(after)
    ensures After(s, [head] + cs) == Updated(Parenthesised(head), s)
  {
    var t := Updated(Parenthesised(head), s);
    NamespaceLines(s, head, cs);
    NamespacesClosed(t, head.namespaces, bodies);
    ConsumedConcat(Namespaces(t, head.namespaces), Closings(bodies), Written(after));
    if after != Done {
      BalancedTokens(t, after);
    }
  }

  /** So does one whose brace comes on a later line, and a bare declaration of one. */
  lemma WholeNamespace(s: seq<Block>, head: Content, cs: seq<Content>, startsAsm: bool, inside: Body, after: Body)
    requires |head.namespaces| == 1 && !head.namespaces[0].brace && head.classDecl == None
    requires forall c <- cs :: TokenLine(c)
    requires cs == [] || Quiet(Updated(Parenthesised(head), s))
    requires after == Done || s == [] || Top(s).seenOpenBrace
    requires var ts := head.otherwise.tokens + AllTokens(cs);
             || ts == [OpenBrace(startsAsm)] + Written(inside) + [CloseBrace] + Written(after)
             || ts == [Semicolon] + Written(after)
    ensures After(s, [head] + cs) == Updated(Parenthesised(head), s)
  {
    var t := Updated(Parenthesised(head), s);
    NamespaceLines(s, head, cs);
    var ns := head.namespaces;
    assert Namespaces(t, ns[..0]) == t;
    var k := NewBlock(Namespace(ns[0].name), false);
    assert Namespaces(t, ns) == t + [k];
    Forward(t, k, Semicolon, after);
    Complete(t, k, startsAsm, inside, after);
  }

  /** Inside parentheses `class` declares nothing. */
  lemma NoClassInParentheses(s: seq<Block>, c: Content)
    requires s != [] && c.namespaces == [] && Top(s).parentheses + c.parentheses != 0
    ensures Updated(c, s) == Updated(c.(classDecl := None), s)
  {
    var t := Parentheses(s, c);
    var other := c.(classDecl := None);
    assert InNamespaces(c, s) == t && InNamespaces(other, s) == t;
    assert Declared(t, c) == t && Declared(t, other) == t;
    assert Begun(t, c) == Begun(t, other);
  }

  /** The access that members of a class begin with. */
  function FirstAccess(r: Rest, isStruct: bool): string {
    if r.access.Some? then r.access.value else if isStruct then "public" else "private"
  }

  /** A class head alone: its members are private unless it says otherwise or is a struct. */
  lemma ClassHead(s: seq<Block>, head: Content, name: string, isStruct: bool)
    requires head.namespaces == [] && head.classDecl == Some(Class(name, isStruct)) && Outside(s, head)
    requires head.afterClass.tokens == []
    ensures Updated(head, s) == Updated(Parenthesised(head), s)
              + [Block(Class(name, isStruct), false, 0, NoAsm, head.bareColon, FirstAccess(head.afterClass, isStruct))]
  {
    var t := Updated(Parenthesised(head), s);
    ParenthesesOnly(s, head);
    ClassPushed(t, head, name, isStruct);
    assert Updated(head, s) == Continued(head, t);
  }

  lemma ClassPushed(t: seq<Block>, head: Content, name: string, isStruct: bool)
    requires head.classDecl == Some(Class(name, isStruct)) && (t == [] || Top(t).parentheses == 0)
    requires head.afterClass.tokens == []
    ensures Continued(head, t)
         == t + [Block(Class(name, isStruct), false, 0, NoAsm, head.bareColon, FirstAccess(head.afterClass, isStruct))]
  {
    var k := NewBlock(Class(name, isStruct), false);
    BegunNew(t, k, head);
    AccessedNew(t, k.(derived := head.bareColon), head.afterClass);
    assert Declared(t, head) == t + [k];
  }

  lemma BegunNew(t: seq<Block>, k: Block, c: Content)
    requires !k.seenOpenBrace && k.what.Class? && !k.derived
    ensures Begun(t + [k], c) == t + [k.(derived := c.bareColon)]
  {
    TopSet(t, k, k.(derived := true));
  }

  lemma AccessedNew(t: seq<Block>, k: Block, r: Rest)
    requires k.what.Class?
    ensures Accessed(t + [k], r) == t + [k.(access := if r.access.Some? then r.access.value else k.access)]
  {
    if r.access.Some? {
      TopSet(t, k, k.(access := r.access.value));
    }
  }

  lemma TopSet(t: seq<Block>, k: Block, b: Block)
    ensures Top(t + [k]) == k && SetTop(t + [k], b) == t + [b]
  {
  }

  // ----- only the inside of a block matters to what happens there -----

  lemma NamespacesWithin(outer: seq<Block>, inner: seq<Block>, ns: seq<Namespacing>)
    ensures Namespaces(outer + inner, ns) == outer + Namespaces(inner, ns)
  {
    if ns != [] {
      NamespacesWithin(outer, inner, ns[..|ns| - 1]);
    }
  }

  lemma {:induction false} ConsumedWithin(outer: seq<Block>, inner: seq<Block>, ts: seq<Token>)
    requires forall i | 0 <= i < |ts| :: ConsumedAll(inner, ts[..i]) != []
    ensures ConsumedAll(outer + inner, ts) == outer + ConsumedAll(inner, ts)
  {
    if ts != [] {
      var n := |ts| - 1;
      forall i | 0 <= i < n
        ensures ConsumedAll(inner, ts[..n][..i]) != []
      {
        assert ts[..n][..i] == ts[..i];
      }
      ConsumedWithin(outer, inner, ts[..n]);
      OneWithin(outer, ConsumedAll(inner, ts[..n]), ts[n]);
    }
  }

  lemma OneWithin(outer: seq<Block>, inner: seq<Block>, t: Token)
    requires inner != []
    ensures Consumed(outer + inner, t) == outer + Consumed(inner, t)
  {
    var s := outer + inner;
    assert Top(s) == Top(inner) && s[..|s| - 1] == outer + inner[..|inner| - 1];
  }

  /** A line up to its tokens. */
  function Begin(s: seq<Block>, c: Content): seq<Block> {
    var t := InNamespaces(c, s);
    Accessed(Begun(Declared(t, c), c), if Declares(t, c) then c.afterClass else c.otherwise)
  }

  function TokensOf(s: seq<Block>, c: Content): seq<Token> {
    if Declares(InNamespaces(c, s), c) then c.afterClass.tokens else c.otherwise.tokens
  }

  lemma ParenthesesWithin(outer: seq<Block>, inner: seq<Block>, c: Content)
    requires inner != []
    ensures Parentheses(outer + inner, c) == outer + Parentheses(inner, c) && Parentheses(inner, c) != []
  {
    SetWithin(outer, inner, WithParentheses(Top(inner), c));
  }

  lemma SetWithin(outer: seq<Block>, inner: seq<Block>, b: Block)
    requires inner != []
    ensures Top(outer + inner) == Top(inner) && SetTop(outer + inner, b) == outer + SetTop(inner, b)
  {
  }

  lemma DeclaredWithin(outer: seq<Block>, inner: seq<Block>, c: Content)
    requires inner != []
    ensures Declared(outer + inner, c) == outer + Declared(inner, c) && Declared(inner, c) != []
    ensures Declares(outer + inner, c) == Declares(inner, c)
  {
    assert Top(outer + inner) == Top(inner);
    if Declares(inner, c) {
      var k := NewBlock(c.classDecl.value, false);
      assert outer + inner + [k] == outer + (inner + [k]);
    }
  }

  lemma BegunWithin(outer: seq<Block>, inner: seq<Block>, c: Content, r: Rest)
    requires inner != []
    ensures Begun(outer + inner, c) == outer + Begun(inner, c) && Begun(inner, c) != []
    ensures Accessed(outer + inner, r) == outer + Accessed(inner, r)
  {
    SetWithin(outer, inner, Top(inner).(derived := true));
    if r.access.Some? {
      SetWithin(outer, inner, Top(inner).(access := r.access.value));
    }
  }

  lemma BeginWithin(outer: seq<Block>, inner: seq<Block>, c: Content)
    requires inner != []
    ensures Begin(outer + inner, c) == outer + Begin(inner, c) && TokensOf(outer + inner, c) == TokensOf(inner, c)
  {
    ParenthesesWithin(outer, inner, c);
    NamespacesWithin(outer, Parentheses(inner, c), c.namespaces);
    NamespacesGrow(Parentheses(inner, c), c.namespaces);
    var t := InNamespaces(c, inner);
    DeclaredWithin(outer, t, c);
    var rest := if Declares(t, c) then c.afterClass else c.otherwise;
    BegunWithin(outer, Declared(t, c), c, rest);
    BegunWithin(outer, Begun(Declared(t, c), c), c, rest);
  }

  lemma {:induction false} NamespacesGrow(s: seq<Block>, ns: seq<Namespacing>)
    ensures |Namespaces(s, ns)| == |s| + |ns|
  {
    if ns != [] {
      NamespacesGrow(s, ns[..|ns| - 1]);
    }
  }

  /** The outermost of these blocks does not end before the line's last token. */
  predicate Inside(inner: seq<Block>, c: Content) {
    inner != []
    && forall i | 0 <= i < |TokensOf(inner, c)| :: ConsumedAll(Begin(inner, c), TokensOf(inner, c)[..i]) != []
  }

  /**
   A line inside a block neither depends on what is around the block nor changes it; and a block
   that ends on a line leaves what was around it.
   */
  lemma LineWithin(outer: seq<Block>, inner: seq<Block>, c: Content)
    requires Inside(inner, c)
    ensures Updated(c, outer + inner) == outer + Updated(c, inner)
  {
    BeginWithin(outer, inner, c);
    ConsumedWithin(outer, Begin(inner, c), TokensOf(inner, c));
  }

  /** No line ends the outermost of these blocks before its last token, and no line comes after that. */
  predicate AllInside(inner: seq<Block>, cs: seq<Content>)
    decreases |cs|
  {
    cs == [] || (Inside(inner, cs[0]) && AllInside(Updated(cs[0], inner), cs[1..]))
  }

  /** The same for any number of lines. */
  lemma {:induction false} LinesWithin(outer: seq<Block>, inner: seq<Block>, cs: seq<Content>)
    requires AllInside(inner, cs)
    ensures After(outer + inner, cs) == outer + After(inner, cs)
    decreases |cs|
  {
    if cs != [] {
      LineWithin(outer, inner, cs[0]);
      LinesWithin(outer, Updated(cs[0], inner), cs[1..]);
    }
  }
}
