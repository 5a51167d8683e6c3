/**
 Numbers of single precision (IEEE 754 binary32), as far as they are not
 negative and nowhere near the largest: a real is rounded to 24 significant
 bits, to even in case of a tie, and to multiples of 2^-149 below that.
 */
module Floats {
  import opened Arith
  import opened Grid

  const TWO23 := 8388608.0
  const TWO24 := 16777216.0

  /** The nearest integer, the even one of two. */
  function HalfEven(x: real): (n: nat)
    requires x >= 0.0
  {
    var f := x.Floor;
    var d := x - f as real;
    if d < 0.5 || (d == 0.5 && f % 2 == 0) then f else f + 1
  }

  /** `x` below 2^24, rounded after doubling it at most `n` times. */
  function Rounded(x: real, n: nat): (r: real)
    requires x >= 0.0
    ensures r >= 0.0
    decreases n
  {
    if x >= TWO23 || n == 0 then HalfEven(x) as real else Rounded(2.0 * x, n - 1) / 2.0
  }

  /** The number of single precision nearest to `x`. */
  function Single(x: real): (r: real)
    ensures x >= 0.0 ==> r >= 0.0
    decreases x < 0.0, x.Floor
  {
    if x < 0.0 then -Single(-x) else if x >= TWO24 then 2.0 * Single(x / 2.0) else Rounded(x, 149)
  }

  predicate IsSingle(x: real) {
    x >= 0.0 && Single(x) == x
  }

  predicate Whole(x: real) {
    x == x.Floor as real
  }

  // ----- rounding does not jump over whole numbers -----

  lemma HalfEvenBetween(a: nat, x: real, b: nat)
    requires a as real <= x <= b as real
    ensures a <= HalfEven(x) <= b
  {
    assert x.Floor < b || x == b as real;
  }

  lemma {:induction false} RoundedBetween(a: nat, x: real, b: nat, n: nat)
    requires a as real <= x <= b as real
    ensures a as real <= Rounded(x, n) <= b as real
    decreases n
  {
    if x >= TWO23 || n == 0 {
      HalfEvenBetween(a, x, b);
    } else {
      RoundedBetween(2 * a, 2.0 * x, 2 * b, n - 1);
    }
  }

  lemma {:induction false} WholeRounded(m: nat, n: nat)
    ensures Rounded(m as real, n) == m as real
  {
    RoundedBetween(m, m as real, m, n);
  }

  /** Large numbers do not get smaller than 2^24. */
  lemma {:induction false} StaysLarge(x: real)
    requires x >= TWO24
    ensures Single(x) >= TWO24
    decreases x.Floor
  {
    if x / 2.0 >= TWO24 {
      StaysLarge(x / 2.0);
    } else {
      RoundedBetween(8388608, x / 2.0, 16777216, 149);
    }
  }

  /** A whole number that is not too large is not jumped over. */
  lemma AtLeast(a: nat, x: real)
    requires a as real <= x && a <= 16777216
    ensures Single(x) >= a as real
  {
    if x >= TWO24 {
      StaysLarge(x);
    } else {
      RoundedBetween(a, x, 16777216, 149);
    }
  }

  lemma WholeSingle(m: nat)
    requires m <= 16777216
    ensures IsSingle(m as real)
  {
    if m == 16777216 {
      WholeRounded(8388608, 149);
    } else {
      WholeRounded(m, 149);
    }
  }

  // ----- what rounding yields -----

  lemma {:induction false} RoundedTwice(x: real, n: nat)
    requires 0.0 <= x < TWO24
    ensures Rounded(Rounded(x, n), n) == Rounded(x, n)
    decreases n
  {
    var r := Rounded(x, n);
    if x >= TWO23 || n == 0 {
      WholeRounded(HalfEven(x), n);
    } else {
      RoundedTwice(2.0 * x, n - 1);
      RoundedBetween(0, x, 8388608, n);
      if r == TWO23 {
        WholeRounded(8388608, n);
      }
    }
  }

  lemma {:induction false} SingleTwice(x: real)
    requires x >= 0.0
    ensures IsSingle(Single(x))
    decreases x.Floor
  {
    if x >= TWO24 {
      SingleTwice(x / 2.0);
      StaysLarge(x);
    } else {
      RoundedTwice(x, 149);
      RoundedBetween(0, x, 16777216, 149);
      if Single(x) == TWO24 {
        WholeSingle(16777216);
      }
    }
  }

  lemma {:induction false} LargeWhole(x: real)
    requires IsSingle(x) && x >= TWO23
    ensures Whole(x)
    decreases x.Floor
  {
    if x >= TWO24 {
      LargeWhole(x / 2.0);
      assert x == (2 * (x / 2.0).Floor) as real;
    }
  }

  /** The error is at most one in 2^24. */
  lemma {:induction false} SingleError(x: real)
    requires x >= TWO24
    ensures -x <= (Single(x) - x) * TWO24 <= x
    decreases x.Floor
  {
    if x / 2.0 >= TWO24 {
      SingleError(x / 2.0);
    }
  }

  // ----- exact differences -----

  lemma WholeLess(x: real, t: nat)
    requires Whole(x) && t as real <= x
    ensures x.Floor >= t && x - t as real == (x.Floor - t) as real && Whole(x - t as real)
  {
  }

  lemma {:induction false} RoundedLess(x: real, t: nat, n: nat)
    requires t as real <= x < TWO24 && Rounded(x, n) == x
    ensures Rounded(x - t as real, n) == x - t as real
    decreases n
  {
    if x >= TWO23 || n == 0 {
      WholeLess(x, t);
      WholeRounded(x.Floor - t, n);
    } else {
      RoundedLess(2.0 * x, 2 * t, n - 1);
    }
  }

  /** Taking a whole number away is exact if what is left is below 2^24. */
  lemma LessSmall(x: real, t: nat)
    requires IsSingle(x) && t as real <= x && x - t as real < TWO24
    ensures IsSingle(x - t as real)
  {
    if x >= TWO24 {
      LargeWhole(x);
      WholeLess(x, t);
      WholeSingle(x.Floor - t);
    } else {
      RoundedLess(x, t, 149);
    }
  }

  /** Large numbers that differ by a whole number differ by an even one, and so do their halves by half of it. */
  lemma Halved(x: real, t: nat) returns (u: real, h: nat)
    requires IsSingle(x) && x - t as real >= TWO24 && IsSingle(x - t as real)
    ensures x == 2.0 * u && u.Floor < x.Floor && t as real == 2.0 * h as real
    ensures IsSingle(u) && IsSingle(u - h as real)
  {
    u := x / 2.0;
    var y := x - t as real;
    LargeWhole(u);
    LargeWhole(y / 2.0);
    h := u.Floor - (y / 2.0).Floor;
    assert u - h as real == y / 2.0;
  }

  lemma Doubled(z: real, half: real)
    requires z >= TWO24 && z == 2.0 * half && IsSingle(half)
    ensures IsSingle(z)
  {
  }

  /** If taking a whole number away is exact once, it is exact again. */
  lemma {:induction false} LessAgain(x: real, t: nat)
    requires IsSingle(x) && 2.0 * t as real <= x && IsSingle(x - t as real)
    ensures IsSingle(x - t as real - t as real)
    decreases x.Floor
  {
    var z := x - t as real - t as real;
    if z < TWO24 {
      LessSmall(x - t as real, t);
    } else {
      var u, h := Halved(x, t);
      LessAgain(u, h);
      Doubled(z, u - h as real - h as real);
    }
  }

  // ----- large numbers are on a grid -----

  function Scaled(y: real, j: nat): real {
    if j == 0 then y else 2.0 * Scaled(y, j - 1)
  }

  lemma {:induction false} ScaledIs(y: real, j: nat)
    ensures Scaled(y, j) == y * Pow2(j) as real
  {
    if j > 0 {
      ScaledIs(y, j - 1);
    }
  }

  lemma {:induction false} SingleScaled(y: real, j: nat)
    requires y >= TWO23
    ensures Scaled(y, j) >= TWO23 && Single(Scaled(y, j)) == Scaled(Single(y), j)
  {
    if j > 0 {
      SingleScaled(y, j - 1);
    }
  }

  lemma HalfEvenIs(y: real, k: nat, d: real)
    requires y == k as real + d && 0.0 <= d < 1.0
    ensures HalfEven(y) == if d < 0.5 || (d == 0.5 && k % 2 == 0) then k else k + 1
  {
    assert y.Floor == k;
  }

  /** The fraction of a quotient, against one half. */
  lemma Fraction(x: nat, p: nat, k: nat, r: nat, y: real)
    requires p > 0 && x == k * p + r && r < p && y * p as real == x as real
    ensures 0.0 <= y - k as real < 1.0
    ensures y - k as real < 0.5 <==> 2 * r < p
    ensures y - k as real == 0.5 <==> 2 * r == p
  {
    var d, q := y - k as real, p as real;
    var z := r as real;
    assert z == d * q;
    Compare(d, 0.0, q, z, 0.0);
    Compare(d, 0.5, q, z, 0.5 * q);
    Compare(d, 1.0, q, z, q);
  }

  lemma Compare(d: real, e: real, q: real, x: real, y: real)
    requires q > 0.0 && x == d * q && y == e * q
    ensures (d < e <==> x < y) && (d == e <==> x == y)
  {
    if d < e {
      assert (e - d) * q > 0.0;
    } else if d > e {
      assert (d - e) * q > 0.0;
    }
  }

  /** Large whole numbers are rounded to the grid of their size. */
  lemma SingleNearest(x: nat, j: nat)
    requires Large(j) <= x < 2 * Large(j)
    ensures Single(x as real) == Nearest(x, Pow2(j)) as real
  {
    var p := Pow2(j);
    var y := Ratio(x, p);
    SizeOfQuotient(x, p, y);
    ScaledIs(y, j);
    SingleOfLarge(x as real, j, y);
    HalfEvenQuotient(x, p, y);
    ScaledWhole(HalfEven(y), j);
  }

  lemma Ratio(x: nat, p: nat) returns (y: real)
    requires p > 0
    ensures y * p as real == x as real
  {
    y := x as real / p as real;
  }

  lemma {:induction false} ScaledWhole(h: nat, j: nat)
    ensures Scaled(h as real, j) == (h * Pow2(j)) as real
  {
    if j > 0 {
      ScaledWhole(h, j - 1);
      DoubleProduct(h, Pow2(j - 1));
    }
  }

  lemma SingleOfLarge(x: real, j: nat, y: real)
    requires TWO23 <= y < TWO24 && x == Scaled(y, j)
    ensures Single(x) == Scaled(HalfEven(y) as real, j)
  {
    SingleScaled(y, j);
    assert Single(y) == HalfEven(y) as real;
  }

  lemma HalfEvenQuotient(x: nat, p: nat, y: real)
    requires p > 0 && y * p as real == x as real && y >= 0.0
    ensures Nearest(x, p) == HalfEven(y) * p
  {
    Parts(x, p);
    var k, r := x / p, x % p;
    Fraction(x, p, k, r, y);
    HalfEvenIs(y, k, y - k as real);
  }

  lemma SizeOfQuotient(x: nat, p: nat, y: real)
    requires p > 0 && 8388608 * p <= x < 16777216 * p && y * p as real == x as real
    ensures TWO23 <= y < TWO24
  {
    Compare(y, TWO23, p as real, x as real, TWO23 * p as real);
    Compare(y, TWO24, p as real, x as real, TWO24 * p as real);
  }

  /** Large numbers of single precision are on the grid of their size, and on every finer one. */
  lemma {:induction false} LargeOnGrid(x: real, j: nat) returns (m: nat)
    requires IsSingle(x) && x >= Large(j) as real
    ensures x == m as real && m % Pow2(j) == 0
    decreases j
  {
    if j == 0 {
      LargeWhole(x);
      m := x.Floor;
    } else {
      var half := LargeOnGrid(x / 2.0, j - 1);
      m := 2 * half;
      var p := Pow2(j - 1);
      Parts(half, p);
      DoubleProduct(half / p, p);
      DivUnique(m, 2 * p, half / p);
    }
  }
}

/**
 What is known of rounding to single precision, said of any function that does
 it. Proofs that go by these laws need not look at how numbers are rounded.
 */
module Rounding {
  import opened Floats
  import opened Grid

  /** `round` rounds to single precision. */
  ghost predicate Rounds(round: real -> real) {
    forall x {:trigger Single(x)} | x >= 0.0 :: round(x) == Single(x)
  }

  /** A number of single precision. */
  predicate Exact(round: real -> real, x: real) {
    x >= 0.0 && round(x) == x
  }

  lemma RoundedExact(round: real -> real, x: real)
    requires Rounds(round) && x >= 0.0
    ensures Exact(round, round(x))
  {
    assert round(x) == Single(x);
    SingleTwice(x);
  }

  lemma LargeExact(round: real -> real, x: real)
    requires Rounds(round) && Exact(round, x) && x >= TWO24
    ensures Whole(x)
  {
    assert Single(x) == x;
    LargeWhole(x);
  }

  lemma WholeExact(round: real -> real, m: nat)
    requires Rounds(round) && m <= 16777216
    ensures Exact(round, m as real)
  {
    WholeSingle(m);
  }

  /** A large difference is what is left after the rounded number is taken away. */
  lemma GridDifference(round: real -> real, left: nat, t: nat, j: nat)
    requires Rounds(round) && t <= left && Large(j) <= left - t < 2 * Large(j) && OnGrid(left, t, Pow2(j))
    ensures Nearest(t, Pow2(j)) <= left && OnGrid(left - Nearest(t, Pow2(j)), t, Pow2(j))
    ensures round(left as real - t as real) == (left - Nearest(t, Pow2(j))) as real
  {
    assert left as real - t as real == (left - t) as real;
    SingleNearest(left - t, j);
    NearestLess(left, t, Pow2(j));
  }

  /** The first of them is on the grid. */
  lemma FirstDifference(round: real -> real, x: real, t: nat, j: nat) returns (left: nat)
    requires Rounds(round) && Exact(round, x) && x >= t as real
    requires Large(j) as real <= x - t as real < 2.0 * Large(j) as real
    ensures x == left as real && t <= left && round(x - t as real) == Nearest(left - t, Pow2(j)) as real
    ensures OnGrid(Nearest(left - t, Pow2(j)), t, Pow2(j))
  {
    assert Single(x) == x;
    left := LargeOnGrid(x, j);
    assert x - t as real == (left - t) as real;
    SingleNearest(left - t, j);
    FirstOnGrid(left, t, Pow2(j));
  }

  lemma NotBelow(round: real -> real, a: nat, x: real)
    requires Rounds(round) && a as real <= x && a <= 16777216
    ensures round(x) >= a as real
  {
    AtLeast(a, x);
  }

  /** Taking a whole number away is exact if what is left is below 2^24. */
  lemma SmallDifference(round: real -> real, x: real, t: nat)
    requires Rounds(round) && Exact(round, x) && t as real <= x && x - t as real <= TWO24
    ensures Exact(round, x - t as real)
  {
    assert Single(x) == x;
    if x - t as real < TWO24 {
      LessSmall(x, t);
    } else {
      WholeSingle(16777216);
    }
  }

  /** If taking a whole number away is exact once, it is exact again. */
  lemma SameDifference(round: real -> real, x: real, t: nat)
    requires Rounds(round) && Exact(round, x) && 2.0 * t as real <= x && Exact(round, x - t as real)
    ensures Exact(round, x - t as real - t as real)
  {
    assert Single(x) == x && Single(x - t as real) == x - t as real;
    LessAgain(x, t);
  }

  lemma NearlyExact(round: real -> real, x: real)
    requires Rounds(round) && x >= TWO24
    ensures -x <= (round(x) - x) * TWO24 <= x
  {
    SingleError(x);
  }
}
