/**
 What the loss figures of a report block say about the packets that were
 really sent, and where the two differ.
 */
module RtcpLoss {
  import opened Octets
  import opened Reception
  import opened RtcpReport

  /** The record after more packets. */
  function Since(s: Stats, ts: seq<int>): Stats {
    if ts == [] then s else Noted(Since(s, ts[..|ts| - 1]), ts[|ts| - 1] % 0x1_0000)
  }

  lemma {:induction false} AfterSince(ssrc: word, a: seq<int>, b: seq<int>)
    ensures After(ssrc, a + b) == Since(After(ssrc, a), b)
  {
    if b == [] {
      assert a + b == a;
    } else {
      var n := |b| - 1;
      AfterSince(ssrc, a, b[..n]);
      LastOff(a, b);
    }
  }

  lemma LastOff(a: seq<int>, b: seq<int>)
    requires b != []
    ensures (a + b)[..|a + b| - 1] == a + b[..|b| - 1] && (a + b)[|a + b| - 1] == b[|b| - 1]
  {
  }

  /** Every packet is counted, in all and since the last report. */
  lemma {:induction false} SinceCounts(s: Stats, ts: seq<int>)
    ensures Since(s, ts).sinceReset == s.sinceReset + |ts| && Since(s, ts).total == s.total + |ts|
    ensures Since(s, ts).lastReset == s.lastReset
  {
    if ts != [] {
      SinceCounts(s, ts[..|ts| - 1]);
    }
  }

  /** A report in between does not disturb the numbering. */
  lemma {:induction false} NumberingKept(s: Stats, t: Stats, ts: seq<int>)
    requires s == t.(sinceReset := s.sinceReset, lastReset := s.lastReset)
    ensures var x, y := Since(s, ts), Since(t, ts);
            x == y.(sinceReset := x.sinceReset, lastReset := x.lastReset)
  {
    if ts != [] {
      NumberingKept(s, t, ts[..|ts| - 1]);
    }
  }

  lemma MaxGrows(a: seq<int>, b: seq<int>)
    requires a != []
    ensures Max(a) <= Max(a + b)
  {
    assert Max(a) in a + b;
  }

  lemma OrderlySoFar(a: seq<int>, b: seq<int>)
    requires a != [] && Orderly(a + b) && NoOverflow(a + b)
    ensures Orderly(a) && NoOverflow(a)
  {
    MaxGrows(a, b);
    assert (a + b)[0] == a[0];
    forall i | 0 < i < |a|
      ensures Max(a[..i]) - 0x8000 <= a[i] < Max(a[..i]) + 0x8000
    {
      assert (a + b)[..i] == a[..i] && (a + b)[i] == a[i];
    }
  }

  /** After a report, packets are counted anew, from the highest number at the report. */
  lemma SinceReport(ssrc: word, a: seq<int>, b: seq<int>)
    requires a != [] && Orderly(a + b) && NoOverflow(a + b)
    ensures var s := Since(ResetOne(After(ssrc, a)), b);
            s.sinceReset == |b| && s.highest - s.lastReset == Max(a + b) - Max(a)
  {
    OrderlySoFar(a, b);
    RangeRecovered(ssrc, a);
    RangeRecovered(ssrc, a + b);
    CountsAfter(ssrc, a);
    AfterSince(ssrc, a, b);
    assert (a + b)[0] == a[0];
    Reported(After(ssrc, a), b);
  }

  lemma CountsAfter(ssrc: word, ts: seq<int>)
    ensures After(ssrc, ts).sinceReset == |ts| && After(ssrc, ts).lastReset == 0
  {
    AfterSince(ssrc, [], ts);
    assert [] + ts == ts;
    SinceCounts(NewStats(ssrc), ts);
  }

  lemma Reported(s: Stats, ts: seq<int>)
    requires s.sinceReset > 0
    ensures var r := Since(ResetOne(s), ts);
            r.sinceReset == |ts| && r.lastReset == s.highest && r.highest == Since(s, ts).highest
  {
    SinceCounts(ResetOne(s), ts);
    NumberingKept(ResetOne(s), s, ts);
  }

  /** The total is one short of the packets that are missing from the range of numbers seen. */
  lemma TotalLostTrue(ssrc: word, ts: seq<int>)
    requires ts != [] && Orderly(ts) && NoOverflow(ts)
    requires -0x8000_0000 <= Max(ts) - Min(ts) - |ts| < 0x8000_0000
    ensures var missing := Max(ts) - Min(ts) + 1 - |ts|; TotalLost(After(ssrc, ts)) == missing - 1
  {
    RangeRecovered(ssrc, ts);
    TotalLostOf(After(ssrc, ts), Max(ts) - Min(ts) - |ts|);
  }

  lemma TotalLostOf(s: Stats, x: int)
    requires s.highest - s.base - s.total == x && -0x8000_0000 <= x < 0x8000_0000
    ensures TotalLost(s) == x
  {
    SignedBack(x);
  }

  lemma SignedBack(x: int)
    requires -0x8000_0000 <= x < 0x8000_0000
    ensures Signed(Wrapped(x)) == x
  {
  }

  /** `f` 256ths is how much is missing of what was expected, rounded down; nothing if more came than that. */
  predicate Share(f: byte, expected: nat, received: nat) {
    if expected < received then f == 0
    else f * expected <= 256 * (expected - received) < (f + 1) * expected
  }

  /** From the second report on, the fraction is the share of packets lost since the last, rounded down. */
  lemma FractionTrue(ssrc: word, a: seq<int>, b: seq<int>)
    requires a != [] && b != [] && Orderly(a + b) && NoOverflow(a + b)
    requires -0x8000_0000 <= Max(a + b) - Max(a) - |b| < 0x80_0000
    ensures Max(a + b) >= Max(a)
    ensures Share(LossFraction(Since(ResetOne(After(ssrc, a)), b)), Max(a + b) - Max(a), |b|)
  {
    SinceReport(ssrc, a, b);
    MaxGrows(a, b);
    var s, expected := Since(ResetOne(After(ssrc, a)), b), Max(a + b) - Max(a);
    FractionOf(s, expected, |b|);
    assert Share(LossFraction(s), expected, |b|);
  }

  lemma FractionOf(s: Stats, expected: nat, received: nat)
    requires s.sinceReset == received > 0 && s.highest - s.lastReset == expected
    requires -0x8000_0000 <= expected - received < 0x80_0000
    ensures Share(LossFraction(s), expected, received)
  {
    if expected >= received {
      FractionExact(s);
    } else {
      SignedBack(expected - received);
    }
  }

  /** In the first report it is 255 256ths, whatever was lost: the highest number is not compared with the first. */
  lemma FirstFraction(ssrc: word, ts: seq<int>)
    requires ts != [] && |ts| <= 256 && Orderly(ts) && NoOverflow(ts)
    requires 0x1_0000 * (1 - ts[0] / 0x1_0000) + Max(ts) - |ts| < 0x80_0000
    ensures LossFraction(After(ssrc, ts)) == 255
  {
    RangeRecovered(ssrc, ts);
    CountsAfter(ssrc, ts);
    assert ts[0] in ts;
    FirstOf(After(ssrc, ts), |ts|);
  }

  lemma FirstOf(s: Stats, received: nat)
    requires s.sinceReset == received && 0 < received <= 256 && s.lastReset == 0
    requires s.highest >= 0x1_0000 && s.highest - received < 0x80_0000
    ensures LossFraction(s) == 255
  {
    FractionOf(s, s.highest, received);
    AlmostAll(LossFraction(s), s.highest, received);
  }

  lemma AlmostAll(f: byte, expected: nat, n: nat)
    requires 256 * n <= expected && 256 * (expected - n) < (f + 1) * expected
    ensures f == 255
  {
    if f < 255 {
      Fewer(f + 1, 255, expected);
    }
  }

  lemma Fewer(a: nat, b: nat, n: nat)
    requires a <= b
    ensures a * n <= b * n
  {
  }

  /** Of the total, what 24 bits with a sign can hold is kept, and beyond that the largest or the smallest. */
  lemma ClampedTotal(n: int)
    ensures if n >= 0x80_0000 then Clamp24(n) == 0x7F_FFFF
            else if n < -0x80_0000 then Clamp24(n) == -0x80_0000 else Clamp24(n) == n
  {
  }

  /** The middle of a time stamp is its seconds in 16 bits and its fraction in 16 bits. */
  lemma MiddleOfTime(msw: word, lsw: word)
    ensures Middle(msw, lsw) == (0x1_0000_0000 * msw + lsw) / 0x1_0000 % 0x1_0000_0000
  {
    var x := 0x1_0000_0000 * msw + lsw;
    assert x / 0x1_0000 == 0x1_0000 * msw + lsw / 0x1_0000;
    assert msw == 0x1_0000 * (msw / 0x1_0000) + msw % 0x1_0000;
  }
}
