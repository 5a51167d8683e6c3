/**
 Fixed-point division of libmad: 28 fractional bits in a 32-bit signed word,
 computed by shift and subtract.
 */
module FixedDiv {
  import opened Arith

  const FRACBITS: nat := 28
  const MIN: int := -0x8000_0000
  const MAX: int := 0x7fff_ffff
  /** 2^28, the fixed-point one. */
  const ONE: nat := 0x1000_0000

  predicate Fits(x: int) { MIN <= x <= MAX }

  /** Overflow of a 32-bit signed word. */
  function Wrap(x: int): int
    requires 2 * MIN <= x <= 2 * MAX + 2
  {
    if x > MAX then x - 0x1_0000_0000 else if x < MIN then x + 0x1_0000_0000 else x
  }

  function Abs(x: int): nat { if x < 0 then -x else x }

  function Pow2(n: nat): (p: nat)
    ensures p > 0
  {
    if n == 0 then 1 else 2 * Pow2(n - 1)
  }

  /** `v / d` rounded to nearest, ties up. */
  function Round(v: nat, d: nat): nat
    requires d > 0
  {
    Quot(2 * v + d, 2 * d)
  }

  /** `x * 2^28 / y` rounded to nearest, ties away from zero. */
  function Ideal(x: int, y: int): int
    requires y != 0
  {
    Signed(Round(Abs(x) * ONE, Abs(y)), Negative(x, y))
  }

  /** Registers of the division loop. */
  datatype Regs = Regs(q: int, r: int, bits: nat)

  predicate InRange(s: Regs) { Fits(s.q) && Fits(s.r) }

  /** One turn of the loop, in 32-bit arithmetic. */
  function Turn(s: Regs, y: int): (t: Regs)
    requires 0 < y <= MAX && s.bits > 0 && InRange(s)
    ensures InRange(t)
  {
    var q, r := Wrap(2 * s.q), Wrap(2 * s.r);
    if r >= y then Regs(Wrap(q + 1), r - y, s.bits - 1) else Regs(q, r, s.bits - 1)
  }

  function Loop(s: Regs, y: int): (t: Regs)
    requires 0 < y <= MAX && InRange(s)
    ensures InRange(t) && t.bits <= s.bits
    decreases s.bits
  {
    if s.bits == 0 || s.r == 0 then s else Loop(Turn(s, y), y)
  }

  /** `q << k` in a 32-bit signed word. */
  function ShiftWrap(q: int, k: nat): (z: int)
    requires Fits(q)
    ensures Fits(z)
  {
    if k == 0 then q else Wrap(2 * ShiftWrap(q, k - 1))
  }

  /** Rounding, sign and final shift. */
  function Finish(s: Regs, y: int, negative: bool): int
    requires InRange(s) && 0 < y <= MAX
  {
    var q := if Wrap(2 * s.r) >= y then Wrap(s.q + 1) else s.q;
    ShiftWrap(if negative then Wrap(-q) else q, s.bits)
  }

  predicate Negative(x: int, y: int) { x != 0 && (x < 0) != (y < 0) }

  /** What the program returns. */
  function Divided(x: int, y: int): int
    requires MIN < x <= MAX && MIN < y <= MAX && y != 0
  {
    FromParts(Abs(x) / Abs(y), Abs(x) % Abs(y), Abs(y), Negative(x, y))
  }

  /** From the integer quotient and remainder of the magnitudes. */
  function FromParts(q: int, r: int, d: int, negative: bool): int
    requires Fits(q) && Fits(r) && 0 < d <= MAX
  {
    if OutOfRange(q, r, negative) then 0
    else Finish(Loop(Regs(q, r, FRACBITS), d), d, negative)
  }

  /** The integer part does not fit in front of 28 fractional bits; -8 exactly does. */
  predicate OutOfRange(q: int, r: int, negative: bool) {
    q > 7 && !(q == 8 && r == 0 && negative)
  }

  /** The loop of the program, from the integer quotient and remainder on. */
  method LongDivision(q0: int, r0: int, y: int, negative: bool) returns (z: int)
    requires 0 < y <= MAX && Fits(q0) && Fits(r0)
    ensures z == Finish(Loop(Regs(q0, r0, FRACBITS), y), y, negative)
  {
    var q, r, bits := q0, r0, FRACBITS;
    while bits > 0 && r != 0
      invariant InRange(Regs(q, r, bits))
      invariant Loop(Regs(q, r, bits), y) == Loop(Regs(q0, r0, FRACBITS), y)
    {
      q, r := Wrap(2 * q), Wrap(2 * r);
      if r >= y {
        r, q := r - y, Wrap(q + 1);
      }
      bits := bits - 1;
    }
    if Wrap(2 * r) >= y {
      q := Wrap(q + 1);
    }
    if negative {
      q := Wrap(-q);
    }
    z := ShiftWrap(q, bits);
  }

  method MadFDiv(x0: int, y0: int) returns (z: int)
    requires MIN < x0 <= MAX && MIN < y0 <= MAX && y0 != 0
    ensures z == Divided(x0, y0)
  {
    var x, y := x0, y0;
    var q := Abs(x) / Abs(y);       // mad_f_abs(x / y), the division truncating
    if x < 0 {
      x, y := -x, -y;
    }
    assert x == Abs(x0) && Abs(y) == Abs(y0);
    var r := x % Abs(y);            // x % y, with x not negative
    if y < 0 {
      x, y := -x, -y;
    }
    assert x < 0 <==> Negative(x0, y0);
    if q > 7 && !(q == 8 && r == 0 && (x < 0) != (y < 0)) {
      return 0;
    }
    z := LongDivision(q, r, y, (x < 0) != (y < 0));
  }

  // ----- when no remainder overflows -----

  /** The remainder of the next digit. */
  function NextRem(r: nat, d: nat): nat
    requires r < d
  {
    if 2 * r >= d then 2 * r - d else 2 * r
  }

  /** None of the remainders that are about to be doubled reaches 2^30. */
  predicate Calm(r: nat, d: nat, bits: nat)
    requires r < d
    decreases bits
  {
    r < 0x4000_0000 && (bits == 0 || Calm(NextRem(r, d), d, bits - 1))
  }

  lemma RoundExact(q: nat, r: nat, d: nat)
    requires r < d
    ensures Round(q * d + r, d) == if 2 * r >= d then q + 1 else q
  {
    var w, k := 2 * (q * d + r) + d, if 2 * r >= d then q + 1 else q;
    assert w / (2 * d) == k by {
      assert k * d == if 2 * r >= d then q * d + d else q * d;
      DoubleProduct(k, d);
      DivUnique(w, 2 * d, k);
    }
    QuotIsQuotient(w, 2 * d);
  }

  /** The quotient digits found so far, the remainder and the digits to come. */
  function Scaled(s: Regs, d: nat): int {
    (s.q * d + s.r) * Pow2(s.bits)
  }

  ghost predicate Good(s: Regs, d: nat) {
    && 0 <= s.q <= MAX && 0 <= s.r < d <= MAX
    && s.q * Pow2(s.bits) <= 0x8000_0000 && (s.r != 0 ==> (s.q + 1) * Pow2(s.bits) <= 0x8000_0000)
  }

  lemma TurnValues(s: Regs, d: nat)
    requires Good(s, d) && s.bits > 0 && 0 < s.r < 0x4000_0000
    ensures InRange(s)
    ensures Turn(s, d) == Regs(if 2 * s.r >= d then 2 * s.q + 1 else 2 * s.q, NextRem(s.r, d), s.bits - 1)
    ensures Good(Turn(s, d), d)
  {
  }

  lemma SameScaled(q: nat, r: nat, d: nat, p: nat, b: nat)
    requires b <= 1
    ensures ((2 * q + b) * d + (2 * r - b * d)) * p == (q * d + r) * (2 * p)
  {
  }

  /** Without overflow the loop keeps the scaled value and stops when it is exhausted or exact. */
  lemma {:induction false} LoopCalm(s: Regs, d: nat)
    requires Good(s, d) && Calm(s.r, d, s.bits)
    ensures Good(Loop(s, d), d) && Loop(s, d).r < 0x4000_0000 && (Loop(s, d).bits == 0 || Loop(s, d).r == 0)
    ensures Scaled(Loop(s, d), d) == Scaled(s, d)
    decreases s.bits
  {
    if s.bits > 0 && s.r != 0 {
      var t := Turn(s, d);
      TurnValues(s, d);
      assert Scaled(t, d) == Scaled(s, d) by {
        SameScaled(s.q, s.r, d, Pow2(s.bits - 1), if 2 * s.r >= d then 1 else 0);
      }
      LoopCalm(t, d);
      assert Loop(s, d) == Loop(t, d);
    }
  }

  lemma {:induction false} ShiftExact(q: int, k: nat, v: int)
    requires Fits(q) && v == q * Pow2(k) && -0x8000_0000 <= v <= 0x8000_0000
    ensures ShiftWrap(q, k) == Wrap(v)
  {
    if k > 0 {
      var half := q * Pow2(k - 1);
      DoubleProduct(q, Pow2(k - 1));
      assert v == 2 * half;
      ShiftExact(q, k - 1, half);
    }
  }

  /** The rounded magnitude with its sign. */
  function Signed(m: int, negative: bool): int { if negative then -m else m }

  lemma FinishLast(q: nat, r: nat, d: nat, negative: bool)
    requires q <= MAX && r < d <= MAX && r < 0x4000_0000
    ensures Round(q * d + r, d) <= 0x8000_0000
    ensures Finish(Regs(q, r, 0), d, negative) == Wrap(Signed(Round(q * d + r, d), negative))
  {
    RoundExact(q, r, d);
  }

  lemma FinishExact(q: nat, bits: nat, d: nat, m: nat, v: nat, negative: bool)
    requires q <= MAX && 0 < d <= MAX && m == q * Pow2(bits) <= 0x8000_0000 && v == m * d
    ensures Round(v, d) == m
    ensures Finish(Regs(q, 0, bits), d, negative) == Wrap(Signed(m, negative))
  {
    RoundExact(m, 0, d);
    if negative {
      var k: int := -(q as int);
      assert k * Pow2(bits) == -(m as int);
      ShiftExact(k, bits, -(m as int));
    } else {
      ShiftExact(q, bits, m);
    }
  }

  lemma FinishCalm(t: Regs, d: nat, negative: bool, v: nat)
    requires Good(t, d) && t.r < 0x4000_0000 && (t.bits == 0 || t.r == 0) && v == Scaled(t, d)
    ensures Round(v, d) <= 0x8000_0000
    ensures Finish(t, d, negative) == Wrap(Signed(Round(v, d), negative))
  {
    if t.bits == 0 {
      assert v == t.q * d + t.r;
      FinishLast(t.q, t.r, d, negative);
    } else {
      var m := t.q * Pow2(t.bits);
      assert v == m * d;
      FinishExact(t.q, t.bits, d, m, v, negative);
    }
  }

  lemma Pow28()
    ensures Pow2(28) == ONE
  {
    assert Pow2(8) == 256;
    assert Pow2(16) == 0x1_0000;
    assert Pow2(24) == 0x100_0000;
  }

  lemma LongDivisionCalm(n: nat, d: nat, q: nat, r: nat, negative: bool)
    requires n <= MAX && 0 < d <= MAX && n == q * d + r && r < d
    requires q <= 7 || (q == 8 && r == 0)
    requires Calm(r, d, FRACBITS)
    ensures Round(n * ONE, d) <= 0x8000_0000
    ensures Finish(Loop(Regs(q, r, FRACBITS), d), d, negative) == Wrap(Signed(Round(n * ONE, d), negative))
  {
    var s := Regs(q, r, FRACBITS);
    assert Good(s, d) && Scaled(s, d) == n * ONE by {
      Pow28();
    }
    LoopCalm(s, d);
    FinishCalm(Loop(s, d), d, negative, n * ONE);
  }

  /** When the integer part is out of range, so is the ideal result. */
  lemma OutOfRangeUnrepresentable(n: nat, d: nat, q: nat, r: nat, negative: bool)
    requires n <= MAX && 0 < d <= MAX && n == q * d + r && r < d && OutOfRange(q, r, negative)
    ensures !Fits(Signed(Round(n * ONE, d), negative))
  {
    MulMono(8, q, d);
    if q == 8 && r == 0 {
      assert n * ONE == (8 * ONE) * d + 0;
      RoundExact(8 * ONE, 0, d);
    } else {
      assert n >= 8 * d + 1 by {
        if q > 8 { MulMono(9, q, d); }
      }
      assert d <= ONE;
      RoundAtLeast(n * ONE, d, 8 * ONE + 1);
    }
  }

  lemma RoundAtLeast(v: nat, d: nat, m: nat)
    requires d > 0 && m * d <= v
    ensures Round(v, d) >= m
  {
    assert m * (2 * d) == 2 * (m * d);
    QuotAtLeast(2 * v + d, 2 * d, m);
  }

  // ----- when a remainder does overflow -----

  /** The magnitude the program ends with. */
  function Magnitude(t: Regs, y: int): int
    requires InRange(t) && 0 < y <= MAX
  {
    (if Wrap(2 * t.r) >= y then t.q + 1 else t.q) * Pow2(t.bits)
  }

  /** Whatever happens to the remainder, later digits cannot add more than one unit of the present one. */
  lemma {:induction false} LoopUpper(s: Regs, d: nat)
    requires InRange(s) && 0 < d <= MAX && 0 <= s.q && (s.q + 1) * Pow2(s.bits) <= 0x4000_0000
    ensures 0 <= Magnitude(Loop(s, d), d) <= (s.q + 1) * Pow2(s.bits)
    decreases s.bits
  {
    if s.bits == 0 || s.r == 0 {
      MulMono(s.q, s.q + 1, Pow2(s.bits));
      MulMono(0, s.q, Pow2(s.bits));
    } else {
      var t, p := Turn(s, d), Pow2(s.bits - 1);
      assert (2 * s.q + 2) * p == (s.q + 1) * (2 * p);
      MulMono(1, p, 2 * s.q + 2);
      MulMono(t.q + 1, 2 * s.q + 2, p);
      LoopUpper(t, d);
    }
  }

  lemma OverflowAtRounding(q: nat, r: nat, d: nat)
    requires 0x4000_0000 <= r < d <= MAX && q < 0x4000_0000
    ensures Magnitude(Loop(Regs(q, r, 0), d), d) < Round(q * d + r, d)
  {
    RoundExact(q, r, d);
  }

  lemma OverflowAtLastDigit(q: nat, r: nat, d: nat)
    requires 0x4000_0000 <= r < d <= MAX && q < 0x2000_0000
    ensures Magnitude(Loop(Regs(q, r, 1), d), d) < Round((q * d + r) * 2, d)
  {
    var t := Turn(Regs(q, r, 1), d);
    assert t == Regs(2 * q, 2 * r - 0x1_0000_0000, 0);
    assert (q * d + r) * 2 == (2 * q + 1) * d + (2 * r - d);
    RoundExact(2 * q + 1, 2 * r - d, d);
  }

  /** The digit lost to the overflow is a one, and if the next comes out as one it should have been one too. */
  lemma TwoTurns(q: nat, r: nat, d: nat, bits: nat) returns (u: Regs)
    requires 0x4000_0000 <= r < d <= MAX && q < 0x1000_0000
    ensures InRange(u) && Loop(Regs(q, r, bits + 2), d) == Loop(u, d)
    ensures u.bits == bits && (u.q == 4 * q || (u.q == 4 * q + 1 && 4 * r >= 3 * d))
  {
    var t := Turn(Regs(q, r, bits + 2), d);
    assert t == Regs(2 * q, 2 * r - 0x1_0000_0000, bits + 1);
    u := Turn(t, d);
  }

  lemma Distribute(q: int, m: int, d: int)
    ensures (4 * q + m) * d == 4 * (q * d) + m * d
  {
  }

  lemma Reorder(a: int, d: int, p: int)
    ensures (a * d) * p == (a * p) * d && a * (4 * p) == (4 * a) * p
  {
  }

  lemma TrueDigits(q: nat, r: nat, d: nat, p: nat, m: nat, v: nat)
    requires d > 0 && m * d <= 4 * r && v == (q * d + r) * (4 * p)
    ensures Round(v, d) >= (4 * q + m) * p
  {
    var a, w := 4 * q + m, q * d + r;
    Distribute(q, m, d);
    Reorder(w, d, p);
    MulMono(a * d, 4 * w, p);
    Reorder(a, d, p);
    RoundAtLeast(v, d, a * p);
  }

  lemma OverflowEarlier(q: nat, r: nat, d: nat, bits: nat, p: nat, v: nat)
    requires 0x4000_0000 <= r < d <= MAX && q < 0x1000_0000
    requires p == Pow2(bits) && (q + 1) * (4 * p) <= 0x4000_0000 && v == (q * d + r) * (4 * p)
    ensures Magnitude(Loop(Regs(q, r, bits + 2), d), d) < Round(v, d)
  {
    var u := TwoTurns(q, r, d, bits);
    var m := if u.q == 4 * q then 2 else 3;
    TrueDigits(q, r, d, p, m, v);
    Reorder(q + 1, 1, p);
    MulMono(u.q + 1, 4 * q + 4, p);
    LoopUpper(u, d);
    MulMono(u.q + 2, 4 * q + m, p);
    assert (u.q + 2) * p == (u.q + 1) * p + p;
  }

  lemma NextDigitRoom(q: nat, p: nat, b: nat)
    requires p > 0 && b <= 1 && (q + 1) * (2 * p) <= 0x4000_0000
    ensures 2 * q + b < 0x4000_0000 && (2 * q + b + 1) * p <= 0x4000_0000
  {
  }

  lemma OverflowNow(q: nat, r: nat, d: nat, bits: nat, v: nat)
    requires 0x4000_0000 <= r < d <= MAX && q < 0x4000_0000
    requires (q + 1) * Pow2(bits) <= 0x4000_0000 && v == (q * d + r) * Pow2(bits)
    ensures Magnitude(Loop(Regs(q, r, bits), d), d) < Round(v, d)
  {
    if bits == 0 {
      OverflowAtRounding(q, r, d);
    } else if bits == 1 {
      assert Pow2(1) == 2;
      OverflowAtLastDigit(q, r, d);
    } else {
      var p := Pow2(bits - 2);
      assert Pow2(bits) == 4 * p;
      MulMono(4, 4 * p, q + 1);
      OverflowEarlier(q, r, d, bits - 2, p, v);
    }
  }

  /** If any remainder overflows, the result falls short of the ideal one. */
  lemma {:induction false} LoopOverflow(q: nat, r: nat, d: nat, bits: nat, v: nat)
    requires r < d <= MAX && q < 0x4000_0000 && !Calm(r, d, bits)
    requires (q + 1) * Pow2(bits) <= 0x4000_0000 && v == (q * d + r) * Pow2(bits)
    ensures Magnitude(Loop(Regs(q, r, bits), d), d) < Round(v, d)
    decreases bits
  {
    if r >= 0x4000_0000 {
      OverflowNow(q, r, d, bits, v);
    } else if r == 0 {
      ZeroCalm(d, bits);
    } else {
      var b := if 2 * r >= d then 1 else 0;
      NextDigitRoom(q, Pow2(bits - 1), b);
      SameScaled(q, r, d, Pow2(bits - 1), b);
      LoopOverflow(2 * q + b, NextRem(r, d), d, bits - 1, v);
      assert Turn(Regs(q, r, bits), d) == Regs(2 * q + b, NextRem(r, d), bits - 1);
    }
  }

  lemma {:induction false} ZeroCalm(d: nat, bits: nat)
    requires d > 0
    ensures Calm(0, d, bits)
  {
    if bits > 0 {
      ZeroCalm(d, bits - 1);
    }
  }

  /** A small magnitude gets its sign back without wrapping. */
  lemma FinishSmall(t: Regs, d: nat, negative: bool, m: int)
    requires InRange(t) && 0 < d <= MAX && m == Magnitude(t, d) && 0 <= m <= 0x4000_0000
    ensures Finish(t, d, negative) == Signed(m, negative)
  {
    var q := if Wrap(2 * t.r) >= d then t.q + 1 else t.q;
    assert m == q * Pow2(t.bits);
    assert 0 <= q <= m by {
      if q < 0 {
        MulMono(q, -1, Pow2(t.bits));
      } else {
        MulMono(1, Pow2(t.bits), q);
      }
    }
    var k := Signed(q, negative);
    assert k * Pow2(t.bits) == Signed(m, negative);
    ShiftExact(k, t.bits, Signed(m, negative));
  }

  lemma {:induction false} SmallDivisorCalm(r: nat, d: nat, bits: nat)
    requires r < d <= 0x4000_0000
    ensures Calm(r, d, bits)
    decreases bits
  {
    if bits > 0 {
      SmallDivisorCalm(NextRem(r, d), d, bits - 1);
    }
  }

  lemma FromPartsIff(n: nat, d: nat, q: nat, r: nat, negative: bool)
    requires n <= MAX && 0 < d <= MAX && n == q * d + r && r < d && q <= n
    ensures FromParts(q, r, d, negative) == Signed(Round(n * ONE, d), negative)
       <==> Fits(Signed(Round(n * ONE, d), negative)) && Calm(r, d, FRACBITS)
  {
    if OutOfRange(q, r, negative) {
      OutOfRangeUnrepresentable(n, d, q, r, negative);
    } else if Calm(r, d, FRACBITS) {
      LongDivisionCalm(n, d, q, r, negative);
    } else {
      Overflowed(n, d, q, r, negative);
    }
  }

  lemma Overflowed(n: nat, d: nat, q: nat, r: nat, negative: bool)
    requires n <= MAX && 0 < d <= MAX && n == q * d + r && r < d && q <= n && !OutOfRange(q, r, negative)
    requires !Calm(r, d, FRACBITS)
    ensures FromParts(q, r, d, negative) != Signed(Round(n * ONE, d), negative)
  {
    if d <= 0x4000_0000 {
      SmallDivisorCalm(r, d, FRACBITS);
    }
    assert q <= 1 by {
      if q >= 2 {
        MulMono(2, q, d);
      }
    }
    Pow28();
    LoopOverflow(q, r, d, FRACBITS, n * ONE);
    LoopUpper(Regs(q, r, FRACBITS), d);
    FinishSmall(Loop(Regs(q, r, FRACBITS), d), d, negative, Magnitude(Loop(Regs(q, r, FRACBITS), d), d));
  }

  lemma DivModParts(n: nat, d: nat) returns (q: nat, r: nat)
    requires d > 0
    ensures q == n / d && r == n % d && n == q * d + r && q <= n
  {
    q, r := n / d, n % d;
    MulMono(1, d, q);
  }

  /**
   The quotient is the correctly rounded one exactly when that fits in a word
   and no remainder overflows while it is doubled.
   */
  lemma DividedIff(x: int, y: int)
    requires MIN < x <= MAX && MIN < y <= MAX && y != 0
    ensures Divided(x, y) == Ideal(x, y) <==> Fits(Ideal(x, y)) && Calm(Abs(x) % Abs(y), Abs(y), FRACBITS)
  {
    var q, r := DivModParts(Abs(x), Abs(y));
    FromPartsIff(Abs(x), Abs(y), q, r, Negative(x, y));
  }

  /** For divisors up to 2^30 in magnitude, representability is all that is needed. */
  lemma DividedSmallDivisor(x: int, y: int)
    requires MIN < x <= MAX && 0 < Abs(y) <= 0x4000_0000
    ensures Divided(x, y) == Ideal(x, y) <==> Fits(Ideal(x, y))
  {
    SmallDivisorCalm(Abs(x) % Abs(y), Abs(y), FRACBITS);
    DividedIff(x, y);
  }

  /** The largest divisor already fails on the number just below it. */
  lemma LargeDivisorFails()
    ensures Ideal(0x7fff_fffe, 0x7fff_ffff) == ONE && Divided(0x7fff_fffe, 0x7fff_ffff) != ONE
  {
    var n, d := 0x7fff_fffe, 0x7fff_ffff;
    assert n % d == n && n / d == 0;
    QuotIsQuotient(2 * (n * ONE) + d, 2 * d);
    assert Ideal(n, d) == (2 * (n * ONE) + d) / (2 * d) == ONE;
    DividedIff(n, d);
  }

  /** The remainder left by the dividend scaled by `2^i`. */
  function ScaledRem(n: nat, d: nat, i: nat): nat
    requires d > 0
  {
    n * Pow2(i) % d
  }

  lemma ScaledRemNext(n: nat, d: nat, i: nat)
    requires d > 0
    ensures ScaledRem(2 * n, d, i) == ScaledRem(n, d, i + 1)
  {
  }

  /** What `Calm` asks of the operands: the scaled dividend leaves small remainders. */
  lemma {:induction false} CalmMeans(n: nat, d: nat, bits: nat)
    requires d > 0
    ensures Calm(n % d, d, bits) <==> forall i: nat | i <= bits :: ScaledRem(n, d, i) < 0x4000_0000
    decreases bits
  {
    assert ScaledRem(n, d, 0) == n % d by {
      assert n * Pow2(0) == n;
    }
    if bits > 0 {
      NextRemIs(n, d);
      CalmMeans(2 * n, d, bits - 1);
      forall i: nat
        ensures ScaledRem(2 * n, d, i) == ScaledRem(n, d, i + 1)
      {
        ScaledRemNext(n, d, i);
      }
      assert (forall i: nat | i <= bits - 1 :: ScaledRem(2 * n, d, i) < 0x4000_0000)
        ==> (forall i: nat | 1 <= i <= bits :: ScaledRem(2 * n, d, i - 1) == ScaledRem(n, d, i) < 0x4000_0000);
    }
  }

  lemma NextRemIs(n: nat, d: nat)
    requires d > 0
    ensures NextRem(n % d, d) == 2 * n % d
  {
    var q, r := n / d, n % d;
    assert n == q * d + r;
    assert (2 * q) * d == 2 * (q * d) && (2 * q + 1) * d == 2 * (q * d) + d;
    DivUnique(2 * n, d, if 2 * r >= d then 2 * q + 1 else 2 * q);
  }
}
