/**
 Finding the bracket that closes, or opens, an expression that may run over
 several lines.
 */
module Brackets {

  // ----- brackets in one piece of text -----

  /** What one character adds to the nesting. */
  function Delta(ch: char, open: char, close: char): int {
    if ch == open then 1 else if ch == close then -1 else 0
  }

  /** Openers less closers in `t[i..j]`. */
  function Depth(t: string, i: int, j: int, open: char, close: char): int
    requires 0 <= i && j <= |t|
    decreases j
  {
    if j <= i then 0 else Depth(t, i, j - 1, open, close) + Delta(t[j - 1], open, close)
  }

  /** The bracket at `i` is closed by the one at `j`: the text in between never closes it. */
  ghost predicate Match(t: string, i: int, j: int, open: char, close: char) {
    && 0 <= i < j < |t|
    && t[i] == open && t[j] == close
    && Depth(t, i, j + 1, open, close) == 0
    && forall k | i < k <= j :: Open(t, i, k, open, close)
  }

  /** More openers than closers in `t[i..k]`. */
  predicate Open(t: string, i: int, k: int, open: char, close: char) {
    0 <= i && k <= |t| && Depth(t, i, k, open, close) > 0
  }

  lemma {:induction false} DepthSplit(t: string, i: int, k: int, j: int, open: char, close: char)
    requires 0 <= i <= k <= j <= |t|
    ensures Depth(t, i, j, open, close) == Depth(t, i, k, open, close) + Depth(t, k, j, open, close)
    decreases j
  {
    if k < j {
      DepthSplit(t, i, k, j - 1, open, close);
    }
  }

  /** More closers than openers in `t[k..j]`, the character at `j` included. */
  predicate Surplus(t: string, k: int, j: int, open: char, close: char) {
    0 <= k && j < |t| && Depth(t, k, j + 1, open, close) < 0
  }

  /** The same as `Match`, read backwards: going down from `j`, the text in between never opens it. */
  ghost predicate MatchBack(t: string, i: int, j: int, open: char, close: char) {
    && 0 <= i < j < |t|
    && t[i] == open && t[j] == close
    && Depth(t, i, j + 1, open, close) == 0
    && forall k | i < k <= j :: Surplus(t, k, j, open, close)
  }

  lemma MatchReversed(t: string, i: int, j: int, open: char, close: char)
    ensures Match(t, i, j, open, close) <==> MatchBack(t, i, j, open, close)
  {
    if 0 <= i < j < |t| {
      forall k | i < k <= j
        ensures Depth(t, i, j + 1, open, close) == Depth(t, i, k, open, close) + Depth(t, k, j + 1, open, close)
        ensures Surplus(t, k, j, open, close) <==> Depth(t, i, j + 1, open, close) < Depth(t, i, k, open, close)
        ensures Open(t, i, k, open, close) <==> Depth(t, i, k, open, close) > 0
      {
        DepthSplit(t, i, k, j + 1, open, close);
      }
      if MatchBack(t, i, j, open, close) {
        forall k | i < k <= j
          ensures Open(t, i, k, open, close)
        {
          assert Surplus(t, k, j, open, close);
        }
      }
    }
  }

  /** A bracket is closed in one place only, and closes one bracket only. */
  lemma MatchUnique(t: string, i: int, j: int, i2: int, j2: int, open: char, close: char)
    requires Match(t, i, j, open, close) && Match(t, i2, j2, open, close)
    ensures i == i2 <==> j == j2
  {
    MatchReversed(t, i, j, open, close);
    MatchReversed(t, i2, j2, open, close);
    assert i < i2 <= j ==> Surplus(t, i2, j, open, close);
    assert i2 < i <= j2 ==> Surplus(t, i, j2, open, close);
    assert i < j + 1 <= j2 ==> Open(t, i, j + 1, open, close) || i != i2;
    assert i2 < j2 + 1 <= j ==> Open(t, i2, j2 + 1, open, close) || i != i2;
  }

  /** Reading on from `i` with `depth` brackets open, the last of them is closed just before `k`. */
  predicate Closes(t: string, i: int, depth: int, k: int, open: char, close: char) {
    0 <= i < k <= |t| && t[k - 1] == close && depth + Depth(t, i, k, open, close) == 0
  }

  /** Reading back from `e` with `depth` brackets closed, the last of them is opened at `i`. */
  predicate Opens(t: string, i: int, depth: int, e: int, open: char, close: char) {
    0 <= i <= e < |t| && t[i] == open && depth - Depth(t, i, e + 1, open, close) == 0
  }

  /** As long as nothing closes the bracket at `i`, it stays open. */
  lemma {:induction false} StaysOpen(t: string, i: int, m: int, open: char, close: char)
    requires 0 <= i < m <= |t| && t[i] == open != close
    requires forall k | i < k <= m :: !Closes(t, i, 0, k, open, close)
    ensures forall k | i < k <= m :: Open(t, i, k, open, close)
    decreases m
  {
    if m > i + 1 {
      StaysOpen(t, i, m - 1, open, close);
      assert Open(t, i, m - 1, open, close);
      assert !Closes(t, i, 0, m, open, close);
    }
    assert Depth(t, i, i, open, close) == 0;
  }

  lemma {:induction false} StaysClosed(t: string, m: int, e: int, open: char, close: char)
    requires 0 <= m <= e < |t| && t[e] == close != open
    requires forall i | m <= i <= e :: !Opens(t, i, 0, e, open, close)
    ensures forall i | m <= i <= e :: Surplus(t, i, e, open, close)
    decreases e - m
  {
    DepthSplit(t, m, m + 1, e + 1, open, close);
    assert Depth(t, m, m, open, close) == 0 && Depth(t, e + 1, e + 1, open, close) == 0;
    assert !Opens(t, m, 0, e, open, close);
    if m < e {
      StaysClosed(t, m + 1, e, open, close);
      assert Surplus(t, m + 1, e, open, close);
    }
  }

  /** The first place where the bracket is closed is its match. */
  lemma FirstCloses(t: string, i: int, k: int, open: char, close: char)
    requires 0 <= i < |t| && t[i] == open != close
    requires Closes(t, i, 0, k, open, close) && forall m | i < m < k :: !Closes(t, i, 0, m, open, close)
    ensures Match(t, i, k - 1, open, close)
  {
    assert Depth(t, i, i, open, close) == 0;
    if i < k - 1 {
      StaysOpen(t, i, k - 1, open, close);
    }
  }

  lemma FirstOpens(t: string, i: int, e: int, open: char, close: char)
    requires 0 <= e < |t| && t[e] == close != open
    requires Opens(t, i, 0, e, open, close) && forall m | i < m <= e :: !Opens(t, m, 0, e, open, close)
    ensures Match(t, i, e, open, close)
  {
    assert Depth(t, e, e, open, close) == 0;
    if i < e {
      StaysClosed(t, i + 1, e, open, close);
      MatchReversed(t, i, e, open, close);
    }
  }

  /** Nothing closes a bracket that has no match. */
  lemma NeverCloses(t: string, i: int, open: char, close: char)
    requires 0 <= i < |t| && t[i] == open != close
    requires forall k | i < k <= |t| :: !Closes(t, i, 0, k, open, close)
    ensures forall j :: !Match(t, i, j, open, close)
  {
    forall j | Match(t, i, j, open, close)
      ensures Closes(t, i, 0, j + 1, open, close)
    {
    }
  }

  lemma NeverOpens(t: string, e: int, open: char, close: char)
    requires 0 <= e < |t| && t[e] == close != open
    requires forall i | 0 <= i <= e :: !Opens(t, i, 0, e, open, close)
    ensures forall i :: !Match(t, i, e, open, close)
  {
    forall i | Match(t, i, e, open, close)
      ensures Opens(t, i, 0, e, open, close)
    {
    }
  }

  // ----- lines -----

  function Flat(lines: seq<string>): string {
    if lines == [] then "" else Flat(lines[..|lines| - 1]) + lines[|lines| - 1]
  }

  /** How much text comes before line `n`. */
  function Start(lines: seq<string>, n: nat): nat
    requires n <= |lines|
  {
    |Flat(lines[..n])|
  }

  /** Where the character at a line and column is in the text as a whole. */
  function At(lines: seq<string>, n: nat, col: int): int
    requires n <= |lines|
  {
    Start(lines, n) + col
  }

  lemma {:induction false} FlatPrefix(lines: seq<string>, n: nat)
    requires n <= |lines|
    ensures Flat(lines[..n]) <= Flat(lines)
  {
    if n < |lines| {
      var m := |lines| - 1;
      FlatPrefix(lines[..m], n);
      assert lines[..m][..n] == lines[..n];
    } else {
      assert lines[..n] == lines;
    }
  }

  /** A line stands in the text at its start, and the next line after it. */
  lemma LineInText(lines: seq<string>, n: nat)
    requires n < |lines|
    ensures Start(lines, n + 1) == Start(lines, n) + |lines[n]| <= |Flat(lines)|
    ensures Flat(lines)[Start(lines, n)..Start(lines, n + 1)] == lines[n]
  {
    assert lines[..n + 1][..n] == lines[..n];
    FlatPrefix(lines, n + 1);
  }

  lemma {:induction false} StartsGrow(lines: seq<string>, m: nat, n: nat)
    requires m <= n <= |lines|
    ensures Start(lines, m) <= Start(lines, n)
  {
    if m < n {
      StartsGrow(lines, m, n - 1);
      LineInText(lines, n - 1);
    }
  }

  /** Different places are different characters of the text. */
  lemma AtInjective(lines: seq<string>, n: nat, c: nat, m: nat, d: nat)
    requires n < |lines| && c < |lines[n]| && m < |lines| && d < |lines[m]|
    requires At(lines, n, c) == At(lines, m, d)
    ensures n == m && c == d
  {
    LineInText(lines, n);
    LineInText(lines, m);
    if n < m {
      StartsGrow(lines, n + 1, m);
    } else if m < n {
      StartsGrow(lines, m + 1, n);
    }
  }

  lemma {:induction false} DepthInLine(t: string, s: int, line: string, i: int, j: int, open: char, close: char)
    requires 0 <= s && s + |line| <= |t| && t[s..s + |line|] == line && 0 <= i <= j <= |line|
    ensures Depth(t, s + i, s + j, open, close) == Depth(line, i, j, open, close)
    decreases j
  {
    if i < j {
      DepthInLine(t, s, line, i, j - 1, open, close);
      assert t[s..s + |line|][j - 1] == t[s + (j - 1)];
    }
  }

  // ----- the scanners -----

  /** The place just after the closer that brings the depth to 0, or -1 and the depth at the end of the line. */
  method FindEndOfExpressionInLine(line: string, startpos: nat, depth: int, open: char, close: char)
    returns (pos: int, left: int)
    requires startpos <= |line| && open != close
    ensures pos == -1 || startpos < pos <= |line|
    ensures pos > -1 ==> left == 0 && Closes(line, startpos, depth, pos, open, close)
    ensures forall k | startpos < k <= (if pos > -1 then pos - 1 else |line|) ::
            !Closes(line, startpos, depth, k, open, close)
    ensures pos == -1 ==> left == depth + Depth(line, startpos, |line|, open, close)
  {
    var d := depth;
    for i := startpos to |line|
      invariant d == depth + Depth(line, startpos, i, open, close)
      invariant forall k | startpos < k <= i :: !Closes(line, startpos, depth, k, open, close)
    {
      if line[i] == open {
        d := d + 1;
      } else if line[i] == close {
        d := d - 1;
        if d == 0 {
          return i + 1, 0;
        }
      }
    }
    return -1, d;
  }

  /** The place of the opener that brings the depth to 0, or -1 and the depth at the beginning of the line. */
  method FindStartOfExpressionInLine(line: string, endpos: int, depth: int, open: char, close: char)
    returns (pos: int, left: int)
    requires -1 <= endpos < |line| && open != close
    ensures -1 <= pos <= endpos
    ensures pos > -1 ==> left == 0 && Opens(line, pos, depth, endpos, open, close)
    ensures forall i | pos < i <= endpos :: !Opens(line, i, depth, endpos, open, close)
    ensures pos == -1 ==> left == depth - Depth(line, 0, endpos + 1, open, close)
  {
    var d := depth;
    var i := endpos;
    assert Depth(line, endpos + 1, endpos + 1, open, close) == 0;
    while i > -1
      invariant -1 <= i <= endpos
      invariant d == depth - Depth(line, i + 1, endpos + 1, open, close)
      invariant forall k | i < k <= endpos :: !Opens(line, k, depth, endpos, open, close)
    {
      DepthSplit(line, i, i + 1, endpos + 1, open, close);
      assert Depth(line, i, i, open, close) == 0;
      if line[i] == close {
        d := d + 1;
      } else if line[i] == open {
        d := d - 1;
        if d == 0 {
          return i, 0;
        }
      }
      i := i - 1;
    }
    return -1, d;
  }

  // ----- over several lines -----

  /** No bracket opened at `i` is closed up to `m`. */
  ghost predicate NoneCloses(t: string, i: int, m: int, open: char, close: char) {
    forall k | i < k <= m :: !Closes(t, i, 0, k, open, close)
  }

  ghost predicate NoneOpens(t: string, m: int, e: int, open: char, close: char) {
    forall i | m <= i <= e :: !Opens(t, i, 0, e, open, close)
  }

  /** What is found in a line that starts at `s`, with the bracket at `i` before it or in it, is found in the text. */
  lemma ClosesInLine(t: string, i: int, s: int, line: string, from: int, k: int, open: char, close: char)
    requires 0 <= i <= s + from && 0 <= s && 0 <= from < k <= |line| && s + |line| <= |t| && t[s..s + |line|] == line
    ensures Closes(t, i, 0, s + k, open, close) <==>
            Closes(line, from, Depth(t, i, s + from, open, close), k, open, close)
    ensures Depth(t, i, s + k, open, close) == Depth(t, i, s + from, open, close) + Depth(line, from, k, open, close)
  {
    DepthSplit(t, i, s + from, s + k, open, close);
    DepthInLine(t, s, line, from, k, open, close);
    assert t[s..s + |line|][k - 1] == t[s + (k - 1)];
  }

  lemma OpensInLine(t: string, e: int, s: int, line: string, to: int, i: int, open: char, close: char)
    requires 0 <= s && 0 <= i < to <= |line| && s + |line| <= |t| && t[s..s + |line|] == line && s + to <= e + 1 <= |t|
    ensures Opens(t, s + i, 0, e, open, close) <==>
            Opens(line, i, -Depth(t, s + to, e + 1, open, close), to - 1, open, close)
    ensures Depth(t, s + i, e + 1, open, close) == Depth(line, i, to, open, close)
            + Depth(t, s + to, e + 1, open, close)
  {
    DepthSplit(t, s + i, s + to, e + 1, open, close);
    DepthInLine(t, s, line, i, to, open, close);
    assert t[s..s + |line|][i] == t[s + i];
  }

  predicate Opener(ch: char) { ch == '(' || ch == '{' || ch == '[' || ch == '<' }

  predicate Closer(ch: char) { ch == ')' || ch == '}' || ch == ']' || ch == '>' }

  function Partner(ch: char): char {
    if ch == '(' then ')' else if ch == '[' then ']' else if ch == '{' then '}' else if ch == '<' then '>'
    else if ch == ')' then '(' else if ch == ']' then '[' else if ch == '}' then '{' else if ch == '>' then '<'
    else ch
  }

  /** One line of the search: starts at column `from` of line `n`. */
  method CloseInLine(lines: seq<string>, n: nat, from: nat, ghost i: int, depth: int, open: char, close: char)
    returns (pos: int, left: int)
    requires n < |lines| && from <= |lines[n]| && open != close
    requires var t := Flat(lines);
             0 <= i <= At(lines, n, from) <= |t| && depth == Depth(t, i, At(lines, n, from), open, close)
    requires NoneCloses(Flat(lines), i, At(lines, n, from), open, close)
    ensures (pos == -1 || from < pos <= |lines[n]|) && Start(lines, n + 1) <= |Flat(lines)|
    ensures pos > -1 ==>
            Closes(Flat(lines), i, 0, At(lines, n, pos), open, close)
            && NoneCloses(Flat(lines), i, At(lines, n, pos) - 1, open, close)
    ensures pos == -1 ==>
            left == Depth(Flat(lines), i, Start(lines, n + 1), open, close)
            && NoneCloses(Flat(lines), i, Start(lines, n + 1), open, close)
  {
    ghost var t, s := Flat(lines), Start(lines, n);
    LineInText(lines, n);
    pos, left := FindEndOfExpressionInLine(lines[n], from, depth, open, close);
    forall k | from < k <= |lines[n]|
      ensures Closes(t, i, 0, s + k, open, close) <==> Closes(lines[n], from, depth, k, open, close)
      ensures Depth(t, i, s + k, open, close) == depth + Depth(lines[n], from, k, open, close)
    {
      ClosesInLine(t, i, s, lines[n], from, k, open, close);
    }
    ghost var m := if pos > -1 then pos - 1 else |lines[n]|;
    forall k | i < k <= s + m
      ensures !Closes(t, i, 0, k, open, close)
    {
      if k > s + from {
        assert !Closes(lines[n], from, depth, k - s, open, close);
      }
    }
  }

  /** One line of the search backwards: starts at column `endpos` of line `n`. */
  method OpenInLine(lines: seq<string>, n: nat, endpos: int, ghost e: int, depth: int, open: char, close: char)
    returns (pos: int, left: int)
    requires n < |lines| && -1 <= endpos < |lines[n]| && open != close
    requires var t := Flat(lines);
             0 <= At(lines, n, endpos + 1) <= e + 1 <= |t|
             && depth == -Depth(t, At(lines, n, endpos + 1), e + 1, open, close)
    requires NoneOpens(Flat(lines), At(lines, n, endpos + 1), e, open, close)
    ensures -1 <= pos <= endpos && Start(lines, n) <= e + 1
    ensures pos > -1 ==>
            Opens(Flat(lines), At(lines, n, pos), 0, e, open, close)
            && NoneOpens(Flat(lines), At(lines, n, pos) + 1, e, open, close)
    ensures pos == -1 ==>
            left == -Depth(Flat(lines), Start(lines, n), e + 1, open, close)
            && NoneOpens(Flat(lines), Start(lines, n), e, open, close)
  {
    ghost var t, s := Flat(lines), Start(lines, n);
    LineInText(lines, n);
    pos, left := FindStartOfExpressionInLine(lines[n], endpos, depth, open, close);
    forall i | 0 <= i <= endpos
      ensures Opens(t, s + i, 0, e, open, close) <==> Opens(lines[n], i, depth, endpos, open, close)
      ensures Depth(t, s + i, e + 1, open, close) == Depth(lines[n], i, endpos + 1, open, close) - depth
    {
      OpensInLine(t, e, s, lines[n], endpos + 1, i, open, close);
    }
    forall i | s + pos < i <= e && s <= i
      ensures !Opens(t, i, 0, e, open, close)
    {
      if i <= s + endpos {
        assert !Opens(lines[n], i - s, depth, endpos, open, close);
      }
    }
    if endpos >= 0 {
      OpensInLine(t, e, s, lines[n], endpos + 1, 0, open, close);
    }
  }

  /** The line and place just past the bracket that closes the one at (linenum, pos), or (number of lines, -1). */
  method CloseExpression(lines: seq<string>, linenum: nat, pos: nat) returns (endLine: nat, endPos: int)
    requires linenum < |lines| && pos < |lines[linenum]|
    ensures var open, i := lines[linenum][pos], At(lines, linenum, pos);
            if endPos > -1 then
              && Opener(open) && endLine < |lines| && 0 < endPos <= |lines[endLine]|
              && Match(Flat(lines), i, At(lines, endLine, endPos - 1), open, Partner(open))
            else
              && endLine == |lines| && endPos == -1
              && (Opener(open) ==> forall j :: !Match(Flat(lines), i, j, open, Partner(open)))
  {
    var open := lines[linenum][pos];
    if !Opener(open) {
      return |lines|, -1;
    }
    var close := Partner(open);
    ghost var t, i := Flat(lines), At(lines, linenum, pos);
    LineInText(lines, linenum);
    assert t[Start(lines, linenum)..Start(lines, linenum + 1)][pos] == t[i];
    var n := linenum;
    var p, numOpen := CloseInLine(lines, n, pos, i, 0, open, close);
    if p > -1 {
      FirstCloses(t, i, At(lines, n, p), open, close);
      return n, p;
    }
    while n < |lines| - 1
      invariant linenum <= n < |lines| && 0 <= i <= Start(lines, n + 1) <= |t|
      invariant numOpen == Depth(t, i, Start(lines, n + 1), open, close)
                && NoneCloses(t, i, Start(lines, n + 1), open, close)
    {
      n := n + 1;
      LineInText(lines, n);
      p, numOpen := CloseInLine(lines, n, 0, i, numOpen, open, close);
      if p > -1 {
        FirstCloses(t, i, At(lines, n, p), open, close);
        return n, p;
      }
    }
    assert lines[..|lines|] == lines;
    NeverCloses(t, i, open, close);
    return |lines|, -1;
  }

  /** The line and place of the bracket that is closed by the one at (linenum, pos), or (0, -1). */
  method ReverseCloseExpression(lines: seq<string>, linenum: nat, pos: nat) returns (startLine: nat, startPos: int)
    requires linenum < |lines| && pos < |lines[linenum]|
    ensures var close, e := lines[linenum][pos], At(lines, linenum, pos);
            if startPos > -1 then
              && Closer(close) && startLine < |lines| && startPos < |lines[startLine]|
              && Match(Flat(lines), At(lines, startLine, startPos), e, Partner(close), close)
            else
              && startLine == 0 && startPos == -1
              && (Closer(close) ==> forall i :: !Match(Flat(lines), i, e, Partner(close), close))
  {
    var close := lines[linenum][pos];
    if !Closer(close) {
      return 0, -1;
    }
    var open := Partner(close);
    ghost var t, e := Flat(lines), At(lines, linenum, pos);
    LineInText(lines, linenum);
    assert t[Start(lines, linenum)..Start(lines, linenum + 1)][pos] == t[e];
    var n := linenum;
    var p, numOpen := OpenInLine(lines, n, pos, e, 0, open, close);
    if p > -1 {
      FirstOpens(t, At(lines, n, p), e, open, close);
      return n, p;
    }
    while n > 0
      invariant n < |lines| && Start(lines, n) <= e + 1 <= |t|
      invariant numOpen == -Depth(t, Start(lines, n), e + 1, open, close)
                && NoneOpens(t, Start(lines, n), e, open, close)
    {
      n := n - 1;
      LineInText(lines, n);
      p, numOpen := OpenInLine(lines, n, |lines[n]| - 1, e, numOpen, open, close);
      if p > -1 {
        FirstOpens(t, At(lines, n, p), e, open, close);
        return n, p;
      }
    }
    NeverOpens(t, e, open, close);
    return 0, -1;
  }

  /** From an opener to its closer and back again. */
  method ThereAndBack(lines: seq<string>, linenum: nat, pos: nat) returns (found: bool, n: nat, p: int)
    requires linenum < |lines| && pos < |lines[linenum]|
    ensures found ==> n == linenum && p == pos
    ensures !found && Opener(lines[linenum][pos]) ==>
              forall j :: !Match(Flat(lines), At(lines, linenum, pos), j, lines[linenum][pos],
                Partner(lines[linenum][pos]))
  {
    var endLine, endPos := CloseExpression(lines, linenum, pos);
    if endPos == -1 {
      return false, 0, -1;
    }
    CharAt(lines, endLine, endPos - 1);
    assert lines[endLine][endPos - 1] == Partner(lines[linenum][pos]);
    assert Partner(Partner(lines[linenum][pos])) == lines[linenum][pos];
    n, p := ReverseCloseExpression(lines, endLine, endPos - 1);
    found := true;
    var open := lines[linenum][pos];
    assert Match(Flat(lines), At(lines, linenum, pos), At(lines, endLine, endPos - 1), open, Partner(open));
    if p > -1 {
      MatchUnique(Flat(lines), At(lines, linenum, pos), At(lines, endLine, endPos - 1), At(lines, n, p),
        At(lines, endLine, endPos - 1), open, Partner(open));
      AtInjective(lines, linenum, pos, n, p);
    }
  }

  /** From a closer to its opener and forward again. */
  method BackAndThere(lines: seq<string>, linenum: nat, pos: nat) returns (found: bool, n: nat, p: int)
    requires linenum < |lines| && pos < |lines[linenum]|
    ensures found ==> n == linenum && p == pos + 1
    ensures !found && Closer(lines[linenum][pos]) ==>
              forall i :: !Match(Flat(lines), i, At(lines, linenum, pos), Partner(lines[linenum][pos]),
                lines[linenum][pos])
  {
    var startLine, startPos := ReverseCloseExpression(lines, linenum, pos);
    if startPos == -1 {
      return false, 0, -1;
    }
    CharAt(lines, startLine, startPos);
    assert lines[startLine][startPos] == Partner(lines[linenum][pos]);
    assert Partner(Partner(lines[linenum][pos])) == lines[linenum][pos];
    n, p := CloseExpression(lines, startLine, startPos);
    found := true;
    var close := lines[linenum][pos];
    assert Match(Flat(lines), At(lines, startLine, startPos), At(lines, linenum, pos), Partner(close), close);
    if p > -1 {
      MatchUnique(Flat(lines), At(lines, startLine, startPos), At(lines, linenum, pos), At(lines, startLine, startPos),
        At(lines, n, p - 1), Partner(close), close);
      AtInjective(lines, linenum, pos, n, p - 1);
    }
  }

  lemma CharAt(lines: seq<string>, n: nat, col: nat)
    requires n < |lines| && col < |lines[n]|
    ensures At(lines, n, col) < |Flat(lines)| && Flat(lines)[At(lines, n, col)] == lines[n][col]
  {
    LineInText(lines, n);
    assert Flat(lines)[Start(lines, n)..Start(lines, n + 1)][col] == Flat(lines)[At(lines, n, col)];
  }

  // ----- what matching means -----

  /** Text in which brackets are nested: each opener with its inside and its closer. */
  datatype Nested =
    | Nothing
    | Other(ch: char, rest: Nested)
    | Pair(inside: Nested, rest: Nested)

  predicate OtherOnly(n: Nested, open: char, close: char) {
    match n
    case Nothing => true
    case Other(ch, rest) => ch != open && ch != close && OtherOnly(rest, open, close)
    case Pair(inside, rest) => OtherOnly(inside, open, close) && OtherOnly(rest, open, close)
  }

  function Written(n: Nested, open: char, close: char): string {
    match n
    case Nothing => ""
    case Other(ch, rest) => [ch] + Written(rest, open, close)
    case Pair(inside, rest) => [open] + Written(inside, open, close) + [close] + Written(rest, open, close)
  }

  /** `w` stands in `t` at `s`. */
  ghost predicate Stands(t: string, s: nat, w: string) {
    s + |w| <= |t| && t[s..s + |w|] == w
  }

  lemma StandsApart(t: string, s: nat, x: string, y: string)
    requires Stands(t, s, x + y)
    ensures Stands(t, s, x) && Stands(t, s + |x|, y)
  {
    assert t[s..s + |x|] == (x + y)[..|x|] && t[s + |x|..s + |x + y|] == (x + y)[|x|..];
  }

  /** Nested text never closes what is open before it, and opens nothing in the end. */
  lemma {:induction false} NestedDepth(t: string, s: nat, n: Nested, i: nat, open: char, close: char)
    requires open != close && OtherOnly(n, open, close) && Stands(t, s, Written(n, open, close))
    requires i <= s && Depth(t, i, s, open, close) > 0
    ensures var e := s + |Written(n, open, close)|;
            Depth(t, i, e, open, close) == Depth(t, i, s, open, close) && AllOpen(t, i, s, e, open, close)
    decreases n
  {
    match n
    case Nothing =>
    case Other(ch, rest) =>
      StandsApart(t, s, [ch], Written(rest, open, close));
      OneChar(t, s, ch);
      NestedDepth(t, s + 1, rest, i, open, close);
    case Pair(inside, rest) =>
      var x, y := Written(inside, open, close), Written(rest, open, close);
      PairStands(t, s, x, y, open, close);
      NestedDepth(t, s + 1, inside, i, open, close);
      NestedDepth(t, s + |x| + 2, rest, i, open, close);
  }

  ghost predicate AllOpen(t: string, i: int, from: int, to: int, open: char, close: char) {
    forall k | from <= k <= to :: Open(t, i, k, open, close)
  }

  lemma OneChar(t: string, s: nat, ch: char)
    requires Stands(t, s, [ch])
    ensures t[s] == ch
  {
    assert t[s..s + 1][0] == t[s];
  }

  lemma PairStands(t: string, s: nat, x: string, y: string, open: char, close: char)
    requires Stands(t, s, [open] + x + [close] + y)
    ensures s + 1 + |x| < |t| && t[s] == open && t[s + 1 + |x|] == close
    ensures Stands(t, s + 1, x) && Stands(t, s + |x| + 2, y)
  {
    StandsApart(t, s, [open] + x + [close], y);
    StandsApart(t, s, [open] + x, [close]);
    StandsApart(t, s, [open], x);
    OneChar(t, s, open);
    OneChar(t, s + 1 + |x|, close);
  }

  /** An opener, nested text and a closer: these two match, whatever is around them. */
  lemma NestedMatch(t: string, i: nat, n: Nested, open: char, close: char)
    requires open != close && OtherOnly(n, open, close)
    requires Stands(t, i, [open] + Written(n, open, close) + [close])
    ensures Match(t, i, i + 1 + |Written(n, open, close)|, open, close)
  {
    var w := Written(n, open, close);
    assert [open] + w + [close] == [open] + w + [close] + "";
    PairStands(t, i, w, "", open, close);
    assert Depth(t, i, i, open, close) == 0;
    NestedDepth(t, i + 1, n, i, open, close);
  }

  /** The four pairs of brackets. */
  lemma Pairs(ch: char)
    ensures Opener(ch) <==> ch in "([{<"
    ensures Closer(ch) <==> ch in ")]}>"
    ensures forall i | 0 <= i < 4 :: Partner("([{<"[i]) == ")]}>"[i] && Partner(")]}>"[i]) == "([{<"[i]
  {
  }
}
