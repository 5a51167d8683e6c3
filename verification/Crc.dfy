/**
 A register clocked with a string of bits, for any state and clock function.
 Keeping the state abstract keeps these proofs about sequences only.
 */
module Register {
  import opened BitReader

  /** The state after clocking in a string of bits. */
  function Run<S>(step: (S, bit) -> S, s: S, bits: seq<bit>): S {
    if bits == [] then s else step(Run(step, s, bits[..|bits| - 1]), bits[|bits| - 1])
  }

  lemma {:induction false} RunConcat<S>(step: (S, bit) -> S, s: S, x: seq<bit>, y: seq<bit>)
    ensures Run(step, s, x + y) == Run(step, Run(step, s, x), y)
  {
    if y == [] {
      assert x + y == x;
    } else {
      assert (x + y)[..|x + y| - 1] == x + y[..|y| - 1];
      RunConcat(step, s, x, y[..|y| - 1]);
    }
  }

  function XorBit(a: bit, b: bit): bit {
    if a == b then 0 else 1
  }

  function Repeat<S>(up: S -> S, s: S, k: nat): S {
    if k == 0 then s else up(Repeat(up, s, k - 1))
  }

  lemma {:induction false} RepeatTwice<S>(up: S -> S, s: S, a: nat, b: nat)
    ensures Repeat(up, s, a + b) == Repeat(up, Repeat(up, s, a), b)
  {
    if b > 0 {
      RepeatTwice(up, s, a, b - 1);
    }
  }

  /** The bits that leave the register during `n` clocks without feedback. */
  function Leaving<S>(up: S -> S, out: S -> bit, s: S, n: nat): (r: seq<bit>)
    ensures |r| == n
  {
    if n == 0 then [] else Leaving(up, out, s, n - 1) + [out(Repeat(up, s, n - 1))]
  }

  function XorBits(x: seq<bit>, y: seq<bit>): (r: seq<bit>)
    requires |x| == |y|
    ensures |r| == |x|
  {
    if x == [] then [] else XorBits(x[..|x| - 1], y[..|y| - 1]) + [XorBit(x[|x| - 1], y[|y| - 1])]
  }

  lemma {:induction false} XorBitsAt(x: seq<bit>, y: seq<bit>, k: nat)
    requires |x| == |y| && k < |x|
    ensures XorBits(x, y)[k] == XorBit(x[k], y[k])
  {
    if k < |x| - 1 {
      XorBitsAt(x[..|x| - 1], y[..|y| - 1], k);
    }
  }

  /** A clock under which old contents move `up` while their `out` bit joins the input. */
  ghost predicate Feedback<S(!new)>(step: (S, bit) -> S, xor: (S, S) -> S, up: S -> S, out: S -> bit) {
    forall c, r, b :: step(xor(c, r), b) == xor(up(c), step(r, XorBit(out(c), b)))
  }

  /** The old contents only move up; the rest is what the state `r` makes of the input mixed with them. */
  lemma {:induction false} RunSplit<S(!new)>(step: (S, bit) -> S, xor: (S, S) -> S, up: S -> S, out: S -> bit, c: S,
    r: S, y: seq<bit>)
    requires Feedback(step, xor, up, out)
    ensures Run(step, xor(c, r), y) == xor(Repeat(up, c, |y|), Run(step, r, XorBits(Leaving(up, out, c, |y|), y)))
  {
    if y != [] {
      var n := |y| - 1;
      RunSplit(step, xor, up, out, c, r, y[..n]);
      var x := Leaving(up, out, c, n + 1);
      assert x[..n] == Leaving(up, out, c, n);
      assert XorBits(x, y)[..n] == XorBits(x[..n], y[..n]);
    }
  }

  ghost predicate Additive<S(!new)>(step: (S, bit) -> S, xor: (S, S) -> S) {
    forall p, q, a, b :: step(xor(p, q), XorBit(a, b)) == xor(step(p, a), step(q, b))
  }

  /** One state's share of a clock: its contents move up and its `out` bit joins the input. */
  ghost predicate FeedsBack<S>(step: (S, bit) -> S, xor: (S, S) -> S, up: S -> S, out: S -> bit, c: S, r: S, b: bit) {
    step(xor(c, r), b) == xor(up(c), step(r, XorBit(out(c), b)))
  }

  /** Where feedback is only mixed in, what goes in mixed comes out mixed. */
  lemma FeedbackAdds<S>(step: (S, bit) -> S, xor: (S, S) -> S, up: S -> S, out: S -> bit, zero: S, p: S, q: S, a: bit,
    b: bit)
    requires xor(p, zero) == p && xor(q, zero) == q
    requires FeedsBack(step, xor, up, out, p, q, XorBit(a, b))
             && FeedsBack(step, xor, up, out, q, zero, XorBit(out(p), XorBit(a, b)))
    requires FeedsBack(step, xor, up, out, p, zero, a) && FeedsBack(step, xor, up, out, q, zero, b)
    requires var (f, g) := (XorBit(out(p), a), XorBit(out(q), b));
             && step(zero, XorBit(f, g)) == xor(step(zero, f), step(zero, g))
             && xor(up(p), xor(up(q), xor(step(zero, f), step(zero, g))))
                == xor(xor(up(p), step(zero, f)), xor(up(q), step(zero, g)))
    ensures step(xor(p, q), XorBit(a, b)) == xor(step(p, a), step(q, b))
  {
    assert XorBit(out(q), XorBit(out(p), XorBit(a, b))) == XorBit(XorBit(out(p), a), XorBit(out(q), b));
  }

  lemma {:induction false} RunXor<S(!new)>(step: (S, bit) -> S, xor: (S, S) -> S, p: S, q: S, x: seq<bit>, y: seq<bit>)
    requires Additive(step, xor) && |x| == |y|
    ensures Run(step, xor(p, q), XorBits(x, y)) == xor(Run(step, p, x), Run(step, q, y))
  {
    if x != [] {
      var n := |x| - 1;
      RunXor(step, xor, p, q, x[..n], y[..n]);
      assert XorBits(x, y)[..n] == XorBits(x[..n], y[..n]);
    }
  }

  lemma RunOne<S>(step: (S, bit) -> S, s: S, y: seq<bit>)
    requires |y| == 1
    ensures Run(step, s, y) == step(s, y[0])
  {
  }

  /** Eight steps of any clock, spelled out. */
  lemma RunEight<S>(step: (S, bit) -> S, s: S, y: seq<bit>)
    requires |y| == 8
    ensures Run(step, s, y)
         == step(step(step(step(step(step(step(step(s, y[0]), y[1]), y[2]), y[3]), y[4]), y[5]), y[6]), y[7])
  {
    assert y[..8] == y;
    forall k | 0 <= k < 8
      ensures Run(step, s, y[..k + 1]) == step(Run(step, s, y[..k]), y[k])
    {
      assert y[..k + 1][..k] == y[..k];
    }
  }

  /** A wide accumulator whose `low` part behaves like the register over eight bits at a time. */
  ghost predicate Simulates<W(!new), S>(wide: (W, nat) -> W, low: W -> S, step: (S, bit) -> S) {
    forall w, data: nat :: low(wide(w, data)) == Run(step, low(w), Digits(data, 8))
  }

  /** Byte `j` of a 32-bit value. */
  lemma WordByte(x: seq<bit>, j: nat)
    requires |x| == 32 && j < 4
    ensures Digits(Shr(Value(x), 24 - 8 * j), 8) == x[8 * j..8 * j + 8]
  {
    ValueDrop(x, 24 - 8 * j);
    DigitsOfValue(x[..8 * j + 8], 8);
    assert x[..8 * j + 8][8 * j..] == x[8 * j..8 * j + 8];
  }

  /** Four table steps over a 32-bit value are 32 clocks. */
  lemma RunWord<W(!new), S>(wide: (W, nat) -> W, low: W -> S, step: (S, bit) -> S, w: W, x: seq<bit>)
    requires Simulates(wide, low, step) && |x| == 32
    ensures var v := Value(x);
            low(wide(wide(wide(wide(w, Shr(v, 24)), Shr(v, 16)), Shr(v, 8)), v)) == Run(step, low(w), x)
  {
    var v := Value(x);
    var w1 := wide(w, Shr(v, 24));
    var w2 := wide(w1, Shr(v, 16));
    var w3 := wide(w2, Shr(v, 8));
    WordByte(x, 0);
    assert low(w1) == Run(step, low(w), x[0..8]);
    WordByte(x, 1);
    RunMore(step, low(w), x, 8);
    assert low(w2) == Run(step, low(w), x[0..16]);
    WordByte(x, 2);
    RunMore(step, low(w), x, 16);
    assert low(w3) == Run(step, low(w), x[0..24]);
    WordByte(x, 3);
    RunMore(step, low(w), x, 24);
    assert x[0..32] == x;
  }

  lemma RunMore<S>(step: (S, bit) -> S, s: S, x: seq<bit>, n: nat)
    requires n + 8 <= |x|
    ensures Run(step, s, x[0..n + 8]) == Run(step, Run(step, s, x[0..n]), x[n..n + 8])
  {
    RunConcat(step, s, x[0..n], x[n..n + 8]);
    assert x[0..n + 8] == x[0..n] + x[n..n + 8];
  }

  /** A state that a clear bit leaves alone survives any input mixed with itself. */
  lemma {:induction false} RunCancelled<S>(step: (S, bit) -> S, s: S, x: seq<bit>)
    requires step(s, 0) == s
    ensures Run(step, s, XorBits(x, x)) == s
  {
    if x != [] {
      var n := |x| - 1;
      RunCancelled(step, s, x[..n]);
      assert XorBits(x, x)[..n] == XorBits(x[..n], x[..n]);
    }
  }

  lemma {:induction false} LeavingAt<S>(up: S -> S, out: S -> bit, s: S, n: nat, k: nat)
    requires k < n
    ensures Leaving(up, out, s, n)[k] == out(Repeat(up, s, k))
  {
    if k < n - 1 {
      LeavingAt(up, out, s, n - 1, k);
    }
  }

  /** No two states are confused by the same input bit, and no two bits by the same state. */
  ghost predicate Injective<S(!new)>(step: (S, bit) -> S) {
    && (forall c, d, b :: step(c, b) == step(d, b) ==> c == d)
    && (forall c, a, b :: step(c, a) == step(c, b) ==> a == b)
  }

  /** Different states stay different under the same input. */
  lemma {:induction false} RunApart<S(!new)>(step: (S, bit) -> S, s: S, t: S, x: seq<bit>)
    requires Injective(step) && s != t
    ensures Run(step, s, x) != Run(step, t, x)
  {
    if x != [] {
      RunApart(step, s, t, x[..|x| - 1]);
    }
  }

  /** Changing exactly one bit of the input changes the final state. */
  lemma {:induction false} RunDetects<S(!new)>(step: (S, bit) -> S, s: S, x: seq<bit>, i: nat, b: bit)
    requires Injective(step) && i < |x| && b != x[i]
    ensures Run(step, s, x[i := b]) != Run(step, s, x)
  {
    var n := |x| - 1;
    if i < n {
      RunDetects(step, s, x[..n], i, b);
      assert x[i := b][..n] == x[..n][i := b];
    } else {
      assert x[i := b][..n] == x[..n];
    }
  }
}

/**
 The CRC-check word of MPEG audio: the table-driven computation of libmad
 against the shift register of section 2.4.3.1 of ISO/IEC 11172-3, whose
 generator polynomial is x^16 + x^15 + x^2 + 1.
 */
module Crc {
  import opened Octets
  import opened BitReader
  import opened Register

  const CRC_POLY: bv16 := 0x8005

  /** One clock, fed the low bit of `x`: a set feedback bit enters at x^15, x^2 and 1. */
  function Clock(crc: bv16, x: bv16): bv16 {
    if (x ^ (crc >> 15)) & 1 == 1 then (crc << 1) ^ CRC_POLY else crc << 1
  }

  function StepBit(crc: bv16, b: bit): bv16 {
    Clock(crc, if b == 1 then 1 else 0)
  }

  /** The register after clocking in a string of bits. */
  function CrcOf(init: bv16, bits: seq<bit>): bv16 {
    Run(StepBit, init, bits)
  }

  // ----- bytes as bit vectors -----

  function Bv(b: bit): bv8 {
    if b == 1 then 1 else 0
  }

  function Push(p: bv8, b: bit): bv8 {
    (p << 1) | Bv(b)
  }

  /** The last eight bits of a string as a bit vector. */
  function Pack(y: seq<bit>): bv8 {
    Run(Push, 0, y)
  }

  /** Eight clocks of the register, fed a byte. */
  function StepByte(crc: bv16, d: bv16): bv16 {
    var c1 := Clock(crc, d >> 7);
    var c2 := Clock(c1, d >> 6);
    var c3 := Clock(c2, d >> 5);
    var c4 := Clock(c3, d >> 4);
    var c5 := Clock(c4, d >> 3);
    var c6 := Clock(c5, d >> 2);
    var c7 := Clock(c6, d >> 1);
    Clock(c7, d)
  }

  lemma PackBits(y: seq<bit>, d: bv16)
    requires |y| == 8 && d == Pack(y) as bv16
    ensures (d >> 7) & 1 == (if y[0] == 1 then 1 else 0) && (d >> 6) & 1 == (if y[1] == 1 then 1 else 0)
    ensures (d >> 5) & 1 == (if y[2] == 1 then 1 else 0) && (d >> 4) & 1 == (if y[3] == 1 then 1 else 0)
    ensures (d >> 3) & 1 == (if y[4] == 1 then 1 else 0) && (d >> 2) & 1 == (if y[5] == 1 then 1 else 0)
    ensures (d >> 1) & 1 == (if y[6] == 1 then 1 else 0) && d & 1 == (if y[7] == 1 then 1 else 0)
  {
    RunEight(Push, 0, y);
  }

  lemma ByteClocks(y: seq<bit>)
    requires |y| == 8
    ensures CrcOf(0, y) == StepByte(0, Pack(y) as bv16)
  {
    RunEight(StepBit, 0, y);
    PackBits(y, Pack(y) as bv16);
  }

  // ----- the register is linear -----

  function Xor(a: bv16, b: bv16): bv16 { a ^ b }

  function Up(c: bv16): bv16 { c << 1 }

  function Msb(c: bv16): bit {
    if c >> 15 == 1 then 1 else 0
  }

  lemma ClockLinear()
    ensures Feedback(StepBit, Xor, Up, Msb)
  {
  }

  /** The register can be run backwards: the low bit tells which way the clock went. */
  lemma ClockInfo(c: bv16, x: bv16, e: bv16)
    requires e == Clock(c, x)
    ensures e & 1 == (x ^ (c >> 15)) & 1
    ensures c << 1 == if e & 1 == 1 then e ^ CRC_POLY else e
  {
  }

  lemma Rebuild(c: bv16, d: bv16, x: bv16)
    requires c << 1 == d << 1 && (x ^ (c >> 15)) & 1 == (x ^ (d >> 15)) & 1
    ensures c == d
  {
  }

  lemma ClockKeepsStates(c: bv16, d: bv16, x: bv16, e: bv16)
    requires Clock(c, x) == e && Clock(d, x) == e
    ensures c == d
  {
    ClockInfo(c, x, e);
    ClockInfo(d, x, e);
    Rebuild(c, d, x);
  }

  lemma ClockKeepsBits(c: bv16, a: bit, b: bit)
    requires StepBit(c, a) == StepBit(c, b)
    ensures a == b
  {
  }

  lemma ClockInjective()
    ensures Injective(StepBit)
  {
    forall c, d, b | StepBit(c, b) == StepBit(d, b)
      ensures c == d
    {
      ClockKeepsStates(c, d, if b == 1 then 1 else 0, StepBit(c, b));
    }
    forall c, a, b | StepBit(c, a) == StepBit(c, b)
      ensures a == b
    {
      ClockKeepsBits(c, a, b);
    }
  }

  lemma XorGroups(t: bv16, u: bv16, v: bv16, w: bv16)
    ensures Xor(t, Xor(u, Xor(v, w))) == Xor(Xor(t, v), Xor(u, w))
  {
  }

  lemma XorClear(u: bv16)
    ensures Xor(u, 0) == u
  {
  }

  lemma BitsAdd(a: bit, b: bit)
    ensures StepBit(0, XorBit(a, b)) == Xor(StepBit(0, a), StepBit(0, b))
  {
    assert StepBit(0, 0) == 0 && StepBit(0, 1) == CRC_POLY;
    assert Xor(0, 0) == 0 && Xor(CRC_POLY, CRC_POLY) == 0 && Xor(0, CRC_POLY) == CRC_POLY
      && Xor(CRC_POLY, 0) == CRC_POLY;
  }

  lemma ClockFeedsBack(c: bv16, r: bv16, b: bit)
    ensures FeedsBack(StepBit, Xor, Up, Msb, c, r, b)
  {
    ClockLinear();
  }

  /** The clock respects mixing, of states and of bits. */
  lemma StepAdditive()
    ensures Additive(StepBit, Xor)
  {
    forall p, q, a, b
      ensures StepBit(Xor(p, q), XorBit(a, b)) == Xor(StepBit(p, a), StepBit(q, b))
    {
      var f, g := XorBit(Msb(p), a), XorBit(Msb(q), b);
      XorClear(p);
      XorClear(q);
      BitsAdd(f, g);
      XorGroups(Up(p), Up(q), StepBit(0, f), StepBit(0, g));
      ClockFeedsBack(p, q, XorBit(a, b));
      ClockFeedsBack(q, 0, XorBit(Msb(p), XorBit(a, b)));
      ClockFeedsBack(p, 0, a);
      ClockFeedsBack(q, 0, b);
      FeedbackAdds(StepBit, Xor, Up, Msb, 0, p, q, a, b);
    }
  }

  // ----- the lookup table -----

  /** `crc_table`, eight entries to a row. */
  function TableRow(r: nat): (row: seq<bv16>)
    requires r < 32
    ensures |row| == 8
  {
    match r
    case 0 => [0x0000, 0x8005, 0x800f, 0x000a, 0x801b, 0x001e, 0x0014, 0x8011]
    case 1 => [0x8033, 0x0036, 0x003c, 0x8039, 0x0028, 0x802d, 0x8027, 0x0022]
    case 2 => [0x8063, 0x0066, 0x006c, 0x8069, 0x0078, 0x807d, 0x8077, 0x0072]
    case 3 => [0x0050, 0x8055, 0x805f, 0x005a, 0x804b, 0x004e, 0x0044, 0x8041]
    case 4 => [0x80c3, 0x00c6, 0x00cc, 0x80c9, 0x00d8, 0x80dd, 0x80d7, 0x00d2]
    case 5 => [0x00f0, 0x80f5, 0x80ff, 0x00fa, 0x80eb, 0x00ee, 0x00e4, 0x80e1]
    case 6 => [0x00a0, 0x80a5, 0x80af, 0x00aa, 0x80bb, 0x00be, 0x00b4, 0x80b1]
    case 7 => [0x8093, 0x0096, 0x009c, 0x8099, 0x0088, 0x808d, 0x8087, 0x0082]
    case 8 => [0x8183, 0x0186, 0x018c, 0x8189, 0x0198, 0x819d, 0x8197, 0x0192]
    case 9 => [0x01b0, 0x81b5, 0x81bf, 0x01ba, 0x81ab, 0x01ae, 0x01a4, 0x81a1]
    case 10 => [0x01e0, 0x81e5, 0x81ef, 0x01ea, 0x81fb, 0x01fe, 0x01f4, 0x81f1]
    case 11 => [0x81d3, 0x01d6, 0x01dc, 0x81d9, 0x01c8, 0x81cd, 0x81c7, 0x01c2]
    case 12 => [0x0140, 0x8145, 0x814f, 0x014a, 0x815b, 0x015e, 0x0154, 0x8151]
    case 13 => [0x8173, 0x0176, 0x017c, 0x8179, 0x0168, 0x816d, 0x8167, 0x0162]
    case 14 => [0x8123, 0x0126, 0x012c, 0x8129, 0x0138, 0x813d, 0x8137, 0x0132]
    case 15 => [0x0110, 0x8115, 0x811f, 0x011a, 0x810b, 0x010e, 0x0104, 0x8101]
    case 16 => [0x8303, 0x0306, 0x030c, 0x8309, 0x0318, 0x831d, 0x8317, 0x0312]
    case 17 => [0x0330, 0x8335, 0x833f, 0x033a, 0x832b, 0x032e, 0x0324, 0x8321]
    case 18 => [0x0360, 0x8365, 0x836f, 0x036a, 0x837b, 0x037e, 0x0374, 0x8371]
    case 19 => [0x8353, 0x0356, 0x035c, 0x8359, 0x0348, 0x834d, 0x8347, 0x0342]
    case 20 => [0x03c0, 0x83c5, 0x83cf, 0x03ca, 0x83db, 0x03de, 0x03d4, 0x83d1]
    case 21 => [0x83f3, 0x03f6, 0x03fc, 0x83f9, 0x03e8, 0x83ed, 0x83e7, 0x03e2]
    case 22 => [0x83a3, 0x03a6, 0x03ac, 0x83a9, 0x03b8, 0x83bd, 0x83b7, 0x03b2]
    case 23 => [0x0390, 0x8395, 0x839f, 0x039a, 0x838b, 0x038e, 0x0384, 0x8381]
    case 24 => [0x0280, 0x8285, 0x828f, 0x028a, 0x829b, 0x029e, 0x0294, 0x8291]
    case 25 => [0x82b3, 0x02b6, 0x02bc, 0x82b9, 0x02a8, 0x82ad, 0x82a7, 0x02a2]
    case 26 => [0x82e3, 0x02e6, 0x02ec, 0x82e9, 0x02f8, 0x82fd, 0x82f7, 0x02f2]
    case 27 => [0x02d0, 0x82d5, 0x82df, 0x02da, 0x82cb, 0x02ce, 0x02c4, 0x82c1]
    case 28 => [0x8243, 0x0246, 0x024c, 0x8249, 0x0258, 0x825d, 0x8257, 0x0252]
    case 29 => [0x0270, 0x8275, 0x827f, 0x027a, 0x826b, 0x026e, 0x0264, 0x8261]
    case 30 => [0x0220, 0x8225, 0x822f, 0x022a, 0x823b, 0x023e, 0x0234, 0x8231]
    case 31 => [0x8213, 0x0216, 0x021c, 0x8219, 0x0208, 0x820d, 0x8207, 0x0202]
  }

  function CrcTable(i: bv8): bv16 {
    TableRow((i / 8) as nat)[(i % 8) as nat]
  }

  /** Every entry is what eight clocks make of its index. */
  lemma TableCorrect(i: bv8)
    ensures CrcTable(i) == StepByte(0, i as bv16)
  {
    if i / 8 < 4 { TableCorrect0(i); }
    else if i / 8 < 8 { TableCorrect4(i); }
    else if i / 8 < 16 { TableCorrect8(i); }
    else { TableCorrect16(i); }
  }

  lemma TableCorrect0(i: bv8) requires i / 8 < 4 ensures CrcTable(i) == StepByte(0, i as bv16) {}
  lemma TableCorrect4(i: bv8) requires 4 <= i / 8 < 8 ensures CrcTable(i) == StepByte(0, i as bv16) {}
  lemma TableCorrect8(i: bv8) requires 8 <= i / 8 < 16 ensures CrcTable(i) == StepByte(0, i as bv16) {}
  lemma TableCorrect16(i: bv8) requires 16 <= i / 8 ensures CrcTable(i) == StepByte(0, i as bv16) {}

  // ----- the accumulator of the program -----

  lemma UpTimes(c: bv16)
    ensures Repeat(Up, c, 0) == c && Repeat(Up, c, 1) == c << 1 && Repeat(Up, c, 2) == c << 2
    ensures Repeat(Up, c, 3) == c << 3 && Repeat(Up, c, 4) == c << 4 && Repeat(Up, c, 5) == c << 5
    ensures Repeat(Up, c, 6) == c << 6 && Repeat(Up, c, 7) == c << 7 && Repeat(Up, c, 8) == c << 8
  {
  }

  lemma LeavingByte(c: bv16)
    ensures Pack(Leaving(Up, Msb, c, 8)) == (c >> 8) as bv8
  {
    var x := Leaving(Up, Msb, c, 8);
    RunEight(Push, 0, x);
    UpTimes(c);
    forall k | 0 <= k < 8
      ensures x[k] == Msb(Repeat(Up, c, k))
    {
      LeavingAt(Up, Msb, c, 8, k);
    }
  }

  lemma PackXor(x: seq<bit>, y: seq<bit>)
    requires |x| == |y|
    ensures Pack(XorBits(x, y)) == Pack(x) ^ Pack(y)
  {
  }

  /** The byte the cleared register sees: the data mixed with the upper byte. */
  lemma MixedByte(c: bv16, y: seq<bit>)
    requires |y| == 8
    ensures Pack(XorBits(Leaving(Up, Msb, c, 8), y)) == ((c >> 8) as bv8) ^ Pack(y)
  {
    PackXor(Leaving(Up, Msb, c, 8), y);
    LeavingByte(c);
  }

  lemma MovedUp(c: bv16, y: seq<bit>)
    requires |y| == 8
    ensures CrcOf(c, y) == (c << 8) ^ CrcOf(0, XorBits(Leaving(Up, Msb, c, 8), y))
  {
    assert Xor(c, 0) == c;
    ClockLinear();
    RunSplit(StepBit, Xor, Up, Msb, c, 0, y);
    UpTimes(c);
  }

  lemma TableByte(m: seq<bit>)
    requires |m| == 8
    ensures CrcOf(0, m) == CrcTable(Pack(m))
  {
    ByteClocks(m);
    TableCorrect(Pack(m));
  }

  /** Eight clocks at once: shift, and look the mixed byte up. */
  lemma TableClocks(c: bv16, y: seq<bit>)
    requires |y| == 8
    ensures CrcOf(c, y) == (c << 8) ^ CrcTable(((c >> 8) as bv8) ^ Pack(y))
  {
    MovedUp(c, y);
    MixedByte(c, y);
    TableByte(XorBits(Leaving(Up, Msb, c, 8), y));
  }

  /** The program keeps the register in the low half of a wider word and never clears the rest. */
  function Low16(crc: bv32): bv16 {
    (crc & 0xffff) as bv16
  }

  /** `((crc >> 8) ^ data) & 0xff` */
  function Index(crc: bv32, data: nat): bv8 {
    (((crc >> 8) & 0xff) as bv8) ^ Pack(Digits(data, 8))
  }

  /** `(crc << 8) ^ crc_table[((crc >> 8) ^ data) & 0xff]` */
  function TableStep(table: bv8 -> bv16, crc: bv32, data: nat): bv32 {
    (crc << 8) ^ (table(Index(crc, data)) as bv32)
  }

  /** A table that does eight clocks in one lookup. */
  ghost predicate Tabulates(table: bv8 -> bv16) {
    forall c, y: seq<bit> | |y| == 8 :: CrcOf(c, y) == (c << 8) ^ table(((c >> 8) as bv8) ^ Pack(y))
  }

  lemma CrcTableTabulates()
    ensures Tabulates(CrcTable)
  {
    forall c, y: seq<bit> | |y| == 8
      ensures CrcOf(c, y) == (c << 8) ^ CrcTable(((c >> 8) as bv8) ^ Pack(y))
    {
      TableClocks(c, y);
    }
  }

  /** The bit-at-a-time step of the tail loop. */
  function TailStep(crc: bv32, data: bit): bv32 {
    var msb: bv32 := (if data == 1 then 1 else 0) ^ (crc >> 15);
    if msb & 1 == 1 then (crc << 1) ^ 0x8005 else crc << 1
  }

  /** The wide accumulator finds the entry the register would find. */
  lemma TableStepCorrect(table: bv8 -> bv16, crc: bv32, data: nat, c: bv16)
    requires Tabulates(table) && c == Low16(crc)
    ensures Low16(TableStep(table, crc, data)) == CrcOf(c, Digits(data, 8))
  {
  }

  lemma TailClock(crc: bv32, x: bv32, y: bv16)
    requires x <= 1 && y == x as bv16
    ensures Low16(if (x ^ (crc >> 15)) & 1 == 1 then (crc << 1) ^ 0x8005 else crc << 1) == Clock(Low16(crc), y)
  {
  }

  lemma TailStepCorrect(crc: bv32, b: bit)
    ensures Low16(TailStep(crc, b)) == StepBit(Low16(crc), b)
  {
    if b == 1 {
      TailClock(crc, 1, 1);
    } else {
      TailClock(crc, 0, 0);
    }
  }

  /** Four lookups over a 32-bit read are 32 clocks. */
  lemma WordClocks(table: bv8 -> bv16, crc: bv32, x: seq<bit>, data: nat)
    requires Tabulates(table) && |x| == 32 && data == Value(x)
    ensures Low16(WordStep(table, crc, data)) == CrcOf(Low16(crc), x)
  {
    var wide := (w: bv32, d: nat) => TableStep(table, w, d);
    forall w, d: nat
      ensures Low16(wide(w, d)) == Run(StepBit, Low16(w), Digits(d, 8))
    {
      TableStepCorrect(table, w, d, Low16(w));
    }
    RunWord(wide, Low16, StepBit, crc, x);
  }

  function WordStep(table: bv8 -> bv16, crc: bv32, data: nat): bv32 {
    var c1 := TableStep(table, crc, Shr(data, 24));
    var c2 := TableStep(table, c1, Shr(data, 16));
    var c3 := TableStep(table, c2, Shr(data, 8));
    TableStep(table, c3, data)
  }

  /** Clocking in the `k` bits that follow the first `done`. */
  lemma ClockMore(buf: seq<byte>, pos: nat, done: nat, k: nat, init: bv16)
    requires pos + done + k <= 8 * |buf|
    ensures CrcOf(init, BitsAt(buf, pos, done + k)) == CrcOf(CrcOf(init, BitsAt(buf, pos, done)),
            BitsAt(buf, pos + done, k))
  {
    assert BitsAt(buf, pos, done + k) == BitsAt(buf, pos, done) + BitsAt(buf, pos + done, k);
    RunConcat(StepBit, init, BitsAt(buf, pos, done), BitsAt(buf, pos + done, k));
  }

  /** The CRC of `len` bits from the cursor on. The cursor is passed by value. */
  method MadBitCrc(start: BitPtr, len: nat, init: bv16) returns (result: bv16)
    requires start.Valid() && start.Pos() + len <= 8 * |start.buf|
    ensures result == CrcOf(init, BitsAt(start.buf, start.Pos(), len))
  {
    var bitptr := new BitPtr(start.buf, 0);
    bitptr.Assign(start);
    ghost var pos := start.Pos();
    CrcTableTabulates();
    var crc, left := ManyWords(CrcTable, bitptr, init as bv32, len, pos, init);
    crc, left := FewBytes(CrcTable, bitptr, crc, left, pos, len - left, init);
    crc := LastBits(bitptr, crc, left, pos, len, init);
    result := Low16(crc);
  }

  /** One case of the switch: read a byte and look it up. */
  method ByteCase(table: bv8 -> bv16, bitptr: BitPtr, crc: bv32, ghost pos: nat, ghost done: nat, ghost init: bv16)
    returns (next: bv32)
    requires Tabulates(table)
    requires bitptr.Valid() && bitptr.Pos() == pos + done && pos + done + 8 <= 8 * |bitptr.buf|
    requires Low16(crc) == CrcOf(init, BitsAt(bitptr.buf, pos, done))
    modifies bitptr
    ensures bitptr.Valid() && bitptr.buf == old(bitptr.buf) && bitptr.Pos() == pos + done + 8
    ensures Low16(next) == CrcOf(init, BitsAt(bitptr.buf, pos, done + 8))
  {
    var data := bitptr.Read(8);
    ByteLookup(table, crc, BitsAt(bitptr.buf, pos + done, 8), data);
    ClockMore(bitptr.buf, pos, done, 8, init);
    next := TableStep(table, crc, data);
  }

  /** The switch, which falls through from the number of whole bytes down to one. */
  method FewBytes(table: bv8 -> bv16, bitptr: BitPtr, start: bv32, count: nat, ghost pos: nat, ghost done: nat,
    ghost init: bv16) returns (crc: bv32, left: nat)
    requires Tabulates(table) && count < 32
    requires bitptr.Valid() && bitptr.Pos() == pos + done && pos + done + count <= 8 * |bitptr.buf|
    requires Low16(start) == CrcOf(init, BitsAt(bitptr.buf, pos, done))
    modifies bitptr
    ensures bitptr.Valid() && bitptr.buf == old(bitptr.buf)
    ensures left < 8 && left <= count && bitptr.Pos() == pos + done + count - left
    ensures Low16(crc) == CrcOf(init, BitsAt(bitptr.buf, pos, done + count - left))
  {
    crc, left := start, count;
    if count >= 24 {
      crc := ByteCase(table, bitptr, crc, pos, done, init);
      left := left - 8;
    }
    if count >= 16 {
      crc := ByteCase(table, bitptr, crc, pos, done + count - left, init);
      left := left - 8;
    }
    if count >= 8 {
      crc := ByteCase(table, bitptr, crc, pos, done + count - left, init);
      left := left - 8;
    }
  }

  /** The loop that takes one bit at a time. */
  method LastBits(bitptr: BitPtr, start: bv32, count: nat, ghost pos: nat, ghost len: nat, ghost init: bv16)
    returns (crc: bv32)
    requires bitptr.Valid() && count <= len && bitptr.Pos() == pos + len - count && pos + len <= 8 * |bitptr.buf|
    requires Low16(start) == CrcOf(init, BitsAt(bitptr.buf, pos, len - count))
    modifies bitptr
    ensures Low16(crc) == CrcOf(init, BitsAt(old(bitptr.buf), pos, len))
  {
    crc := start;
    var left: nat := count;
    while left > 0
      invariant bitptr.Valid() && bitptr.buf == old(bitptr.buf) && left <= count && bitptr.Pos() == pos + len - left
      invariant Low16(crc) == CrcOf(init, BitsAt(bitptr.buf, pos, len - left))
    {
      ghost var done := len - left;
      var data := bitptr.Read(1);
      OneClock(crc, BitsAt(bitptr.buf, pos + done, 1), data);
      ClockMore(bitptr.buf, pos, done, 1, init);
      crc := TailStep(crc, data);
      left := left - 1;
    }
  }

  lemma ByteLookup(table: bv8 -> bv16, crc: bv32, x: seq<bit>, data: nat)
    requires Tabulates(table) && |x| == 8 && data == Value(x)
    ensures Low16(TableStep(table, crc, data)) == CrcOf(Low16(crc), x)
  {
    DigitsOfValue(x, 8);
    TableStepCorrect(table, crc, data, Low16(crc));
  }

  lemma OneClock(crc: bv32, x: seq<bit>, data: nat)
    requires |x| == 1 && data == Value(x)
    ensures data < 2 && Low16(TailStep(crc, data)) == CrcOf(Low16(crc), x)
  {
    assert x[..0] == [] && Value(x) == x[0];
    RunOne(StepBit, Low16(crc), x);
    TailStepCorrect(crc, x[0]);
  }

  /** The loop that takes 32 bits at a time. */
  method ManyWords(table: bv8 -> bv16, bitptr: BitPtr, start: bv32, len: nat, ghost pos: nat, ghost init: bv16)
    returns (crc: bv32, left: nat)
    requires Tabulates(table)
    requires bitptr.Valid() && bitptr.Pos() == pos && pos + len <= 8 * |bitptr.buf|
    requires Low16(start) == init
    modifies bitptr
    ensures bitptr.Valid() && bitptr.buf == old(bitptr.buf)
    ensures left < 32 && left <= len && bitptr.Pos() == pos + len - left
    ensures Low16(crc) == CrcOf(init, BitsAt(bitptr.buf, pos, len - left))
  {
    crc, left := start, len;
    while left >= 32
      invariant bitptr.Valid() && bitptr.buf == old(bitptr.buf) && left <= len && bitptr.Pos() == pos + len - left
      invariant Low16(crc) == CrcOf(init, BitsAt(bitptr.buf, pos, len - left))
    {
      ghost var done := len - left;
      var data := bitptr.Read(32);
      WordClocks(table, crc, BitsAt(bitptr.buf, pos + done, 32), data);
      ClockMore(bitptr.buf, pos, done, 32, init);
      crc := WordStep(table, crc, data);
      left := left - 32;
    }
  }

  // ----- what the check word is for -----

  /** The check word as transmitted, most significant bit first. */
  function WordBits(c: bv16): seq<bit> {
    Leaving(Up, Msb, c, 16)
  }

  lemma ShiftedOut(c: bv16)
    ensures Repeat(Up, c, 16) == 0
  {
    RepeatTwice(Up, c, 8, 8);
    UpTimes(c);
    UpTimes(c << 8);
    assert (c << 8) << 8 == 0;
  }

  lemma FedItself(c: bv16)
    ensures CrcOf(c, WordBits(c)) == 0
  {
    ClockLinear();
    assert Xor(c, 0) == c;
    RunSplit(StepBit, Xor, Up, Msb, c, 0, WordBits(c));
    ShiftedOut(c);
    assert StepBit(0, 0) == 0;
    RunCancelled(StepBit, 0, WordBits(c));
  }

  /** Clocking in the check word after the message clears the register. */
  lemma Residue(init: bv16, x: seq<bit>)
    ensures CrcOf(init, x + WordBits(CrcOf(init, x))) == 0
  {
    RunConcat(StepBit, init, x, WordBits(CrcOf(init, x)));
    FedItself(CrcOf(init, x));
  }

  /** A message and the same message with one bit flipped never share a check word. */
  lemma DetectsBitError(init: bv16, x: seq<bit>, i: nat, b: bit)
    requires i < |x| && b != x[i]
    ensures CrcOf(init, x[i := b]) != CrcOf(init, x)
  {
    ClockInjective();
    RunDetects(StepBit, init, x, i, b);
  }

  /** The check word of mixed messages from mixed initial values is the mix of the check words. */
  lemma {:induction false} CrcAdditive(p: bv16, q: bv16, x: seq<bit>, y: seq<bit>)
    requires |x| == |y|
    ensures CrcOf(p ^ q, XorBits(x, y)) == CrcOf(p, x) ^ CrcOf(q, y)
  {
    StepAdditive();
    RunXor(StepBit, Xor, p, q, x, y);
  }

  lemma LowBit(z: bv16)
    ensures z & 1 <= 1
  {
  }

  /** A set low bit takes sixteen shifts to leave. */
  lemma {:induction false} LowBitStays(s: bv16, k: nat)
    requires s & 1 == 1 && k <= 15
    ensures Repeat(Up, s, k) != 0
  {
    LowBitMoves(s, k);
    RepeatTwice(Up, 1, k, 15 - k);
    RepeatZero(15 - k);
    RepeatTwice(Up, 1, 8, 7);
    UpTimes(1);
    UpTimes(1 << 8);
  }

  lemma {:induction false} LowBitMoves(s: bv16, k: nat)
    requires s & 1 == 1
    ensures Repeat(Up, s, k) & Repeat(Up, 1, k) == Repeat(Up, 1, k)
  {
    if k > 0 {
      LowBitMoves(s, k - 1);
      ShiftedAnd(Repeat(Up, s, k - 1), Repeat(Up, 1, k - 1));
    }
  }

  lemma ShiftedAnd(a: bv16, m: bv16)
    requires a & m == m
    ensures (a << 1) & (m << 1) == m << 1
  {
  }

  lemma {:induction false} RepeatZero(k: nat)
    ensures Repeat(Up, 0, k) == 0
  {
    if k > 0 {
      RepeatZero(k - 1);
    }
  }

  /** A register that up to sixteen bits clear had nothing but those bits in it. */
  lemma {:induction false} ClearedBy(s: bv16, y: seq<bit>)
    requires |y| <= 16 && CrcOf(s, y) == 0
    ensures Repeat(Up, s, |y|) == 0
    decreases |y|
  {
    if y != [] {
      var e := StepBit(s, y[0]);
      RunConcat(StepBit, s, [y[0]], y[1..]);
      assert [y[0]] + y[1..] == y && [y[0]][..0] == [];
      ClearedBy(e, y[1..]);
      if e & 1 == 1 {
        LowBitStays(e, |y| - 1);
      }
      ClockInfo(s, if y[0] == 1 then 1 else 0, e);
      LowBit(e);
      RepeatTwice(Up, s, 1, |y| - 1);
    }
  }

  /** The first set bit leaves its mark for fifteen more clocks. */
  lemma BurstShows(b: seq<bit>)
    requires 0 < |b| <= 16 && b[0] == 1
    ensures CrcOf(0, b) != 0
  {
    RunConcat(StepBit, 0, [b[0]], b[1..]);
    assert [b[0]] + b[1..] == b && [b[0]][..0] == [];
    assert StepBit(0, 1) == CRC_POLY;
    if CrcOf(CRC_POLY, b[1..]) == 0 {
      ClearedBy(CRC_POLY, b[1..]);
      LowBitStays(CRC_POLY, |b| - 1);
    }
  }

  function Clear(n: nat): seq<bit> { seq(n, i => 0) }

  /** An error that begins with its first set bit and is over sixteen bits on is detected. */
  lemma DetectsMixed(init: bv16, x: seq<bit>, before: nat, burst: seq<bit>, after: nat)
    requires |x| == before + |burst| + after && 0 < |burst| <= 16 && burst[0] == 1
    ensures CrcOf(init, XorBits(x, Clear(before) + burst + Clear(after))) != CrcOf(init, x)
  {
    var error := Clear(before) + burst + Clear(after);
    RunConcat(StepBit, 0, Clear(before), burst);
    RunConcat(StepBit, 0, Clear(before) + burst, Clear(after));
    StaysClear(before);
    StaysClear(after);
    BurstShows(burst);
    ClockInjective();
    RunApart(StepBit, CrcOf(0, burst), 0, Clear(after));
    assert init ^ 0 == init;
    CrcAdditive(init, 0, x, error);
    MixedDiffers(CrcOf(init, x), CrcOf(0, error));
  }

  /**
   Two messages that differ, but only within sixteen consecutive bits, never
   share a check word.
   */
  lemma {:induction false} DetectsBurst(init: bv16, x: seq<bit>, y: seq<bit>, from: nat, len: nat)
    requires |x| == |y| && x != y && len <= 16 && from + len <= |x|
    requires forall k | 0 <= k < |x| && x[k] != y[k] :: from <= k < from + len
    ensures CrcOf(init, x) != CrcOf(init, y)
    decreases len
  {
    assert exists k | 0 <= k < |x| :: x[k] != y[k];
    if x[from] == y[from] {
      DetectsBurst(init, x, y, from + 1, len - 1);
    } else {
      var burst := XorBits(x, y)[from..from + len];
      XorBitsAt(x, y, from);
      MixedIn(x, y, from, len);
      DetectsMixed(init, x, from, burst, |x| - from - len);
    }
  }

  lemma MixedBack(x: seq<bit>, y: seq<bit>)
    requires |x| == |y|
    ensures XorBits(x, XorBits(x, y)) == y
  {
    forall k | 0 <= k < |x|
      ensures XorBits(x, XorBits(x, y))[k] == y[k]
    {
      XorBitsAt(x, y, k);
      XorBitsAt(x, XorBits(x, y), k);
    }
  }

  lemma ClearAround(error: seq<bit>, from: nat, len: nat)
    requires from + len <= |error| && forall k | 0 <= k < |error| && !(from <= k < from + len) :: error[k] == 0
    ensures error == Clear(from) + error[from..from + len] + Clear(|error| - from - len)
  {
  }

  /** Messages that agree outside a window differ by an error that is clear outside it. */
  lemma MixedIn(x: seq<bit>, y: seq<bit>, from: nat, len: nat)
    requires |x| == |y| && from + len <= |x|
    requires forall k | 0 <= k < |x| && x[k] != y[k] :: from <= k < from + len
    ensures XorBits(x, Clear(from) + XorBits(x, y)[from..from + len] + Clear(|x| - from - len)) == y
  {
    forall k | 0 <= k < |x| && !(from <= k < from + len)
      ensures XorBits(x, y)[k] == 0
    {
      XorBitsAt(x, y, k);
    }
    ClearAround(XorBits(x, y), from, len);
    MixedBack(x, y);
  }

  lemma MixedDiffers(c: bv16, d: bv16)
    ensures d != 0 ==> c ^ d != c
  {
  }

  lemma {:induction false} StaysClear(n: nat)
    ensures CrcOf(0, Clear(n)) == 0
  {
    if n > 0 {
      StaysClear(n - 1);
      assert Clear(n)[..n - 1] == Clear(n - 1);
      assert StepBit(0, 0) == 0;
    }
  }
}
