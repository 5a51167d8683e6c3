/**
 Whole numbers rounded to a grid of multiples of `p`, to even in case of a tie,
 and what it means to subtract the same number again and again when every
 difference is rounded.
 */
module Grid {
  import opened Arith

  /** The nearest multiple of `p`, the even one of two. */
  function Nearest(x: nat, p: nat): nat
    requires p > 0
  {
    if RoundsDown(x / p, x % p, p) then x / p * p else (x / p + 1) * p
  }

  predicate RoundsDown(k: nat, d: nat, p: nat) { 2 * d < p || (2 * d == p && k % 2 == 0) }

  lemma Parts(x: nat, p: nat)
    requires p > 0
    ensures x == x / p * p + x % p && 0 <= x % p < p && x / p >= 0
  {
    var k := x / p;
    if k < 0 {
      MulMono(k + 1, 0, p);
    }
  }

  lemma NearestIs(x: nat, p: nat, k: nat, d: nat)
    requires d < p && x == k * p + d
    ensures Nearest(x, p) == if RoundsDown(k, d, p) then k * p else (k + 1) * p
  {
    DivUnique(x, p, k);
  }

  lemma NearestClose(x: nat, p: nat)
    requires p > 0
    ensures x - p <= Nearest(x, p) <= x + p && (x >= p ==> Nearest(x, p) >= p)
  {
    var k := x / p;
    assert k * p <= x < k * p + p && (k + 1) * p == k * p + p;
    if x >= p {
      MulMono(1, k, p);
    }
  }

  // ----- numbers from which the same number can be taken away -----

  /** On the grid, and at an even place of it if `t` lies halfway between two places. */
  predicate OnGrid(left: nat, t: nat, p: nat)
    requires p > 0
  {
    left % p == 0 && (2 * (t % p) == p ==> left / p % 2 == 0)
  }

  lemma OnGridAt(left: nat, m: nat, t: nat, p: nat)
    requires p > 0 && left == m * p
    ensures OnGrid(left, t, p) <==> (2 * (t % p) == p ==> m % 2 == 0)
  {
    DivUnique(left, p, m);
  }

  /** A rounded difference is what is left after the rounded number is taken away. */
  lemma NearestLess(left: nat, t: nat, p: nat)
    requires p > 0 && OnGrid(left, t, p) && t <= left
    ensures Nearest(left - t, p) == left - Nearest(t, p) && Nearest(t, p) <= left
    ensures OnGrid(left - Nearest(t, p), t, p)
  {
    var m, q, r := left / p, t / p, t % p;
    Parts(left, p);
    Parts(t, p);
    if r == 0 {
      LessOn(left, m, t, q, p);
    } else {
      LessBetween(left, m, t, q, r, p);
    }
  }

  lemma LessOn(left: nat, m: nat, t: nat, q: nat, p: nat)
    requires p > 0 && left == m * p && t == q * p && t <= left
    ensures Nearest(left - t, p) == left - t && Nearest(t, p) == t && OnGrid(left - t, t, p)
  {
    Below(q, m, p, 0);
    var x := left - t;
    assert x == (m - q) * p;
    NearestIs(x, p, m - q, 0);
    NearestIs(t, p, q, 0);
    DivUnique(t, p, q);
    OnGridAt(x, m - q, t, p);
  }

  lemma LessBetween(left: nat, m: nat, t: nat, q: nat, r: nat, p: nat)
    requires 0 < r < p && left == m * p && t == q * p + r && t <= left && (2 * r == p ==> m % 2 == 0)
    ensures Nearest(left - t, p) == left - Nearest(t, p) && Nearest(t, p) <= left
    ensures OnGrid(left - Nearest(t, p), t, p)
  {
    Below(q, m, p, r);
    LessOff(m, q, r, p);
    NearestIs(left - t, p, m - q - 1, p - r);
    NearestIs(t, p, q, r);
    DivUnique(t, p, q);
    Parity(m, q);
    Opposite(m, q, r, p);
    OnGridLess(left, m, if RoundsDown(q, r, p) then q else q + 1, t, p);
    TimesMore(q, p);
  }

  /** What is rounded down on one side of a place is rounded up on the other. */
  lemma Opposite(m: nat, q: nat, r: nat, p: nat)
    requires 0 < r < p && q < m && (2 * r == p ==> m % 2 == 0)
    ensures RoundsDown(m - q - 1, p - r, p) <==> !RoundsDown(q, r, p)
  {
    Parity(m, q);
  }

  lemma OnGridLess(left: nat, m: nat, q: nat, t: nat, p: nat)
    requires p > 0 && left == m * p && q <= m && (2 * (t % p) == p ==> (m - q) % 2 == 0)
    ensures q * p <= left && OnGrid(left - q * p, t, p)
  {
    MulMono(q, m, p);
    OnGridAt(left - q * p, m - q, t, p);
  }

  lemma Parity(m: nat, q: nat)
    requires q < m
    ensures m % 2 == 0 ==> (if q % 2 == 0 then (m - q) % 2 == 0 else (m - q - 1) % 2 == 0)
  {
  }

  lemma Below(q: nat, m: nat, p: nat, r: nat)
    requires q * p + r <= m * p
    ensures if r == 0 then q <= m || p == 0 else q < m
  {
    if m <= q {
      MulMono(m, q, p);
      if m < q {
        MulMono(m + 1, q, p);
      }
    }
  }

  lemma LessOff(m: nat, q: nat, r: nat, p: nat)
    requires q < m && 0 < r < p
    ensures m * p - (q * p + r) == (m - q - 1) * p + (p - r)
    ensures (m - q) * p == m * p - q * p && (m - q - 1) * p == m * p - q * p - p
  {
  }

  /** The first difference is on the grid, wherever on it the first number was. */
  lemma FirstOnGrid(left: nat, t: nat, p: nat)
    requires p > 0 && left % p == 0 && t <= left
    ensures OnGrid(Nearest(left - t, p), t, p)
  {
    var m, q, r := left / p, t / p, t % p;
    Parts(left, p);
    Parts(t, p);
    if r == 0 {
      LessOn(left, m, t, q, p);
    } else {
      Below(q, m, p, r);
      LessOff(m, q, r, p);
      FirstBetween(left - t, m - q - 1, t, r, p);
    }
  }

  lemma FirstBetween(x: nat, k: nat, t: nat, r: nat, p: nat)
    requires 0 < r < p && t % p == r && x == k * p + (p - r)
    ensures OnGrid(Nearest(x, p), t, p)
  {
    NearestIs(x, p, k, p - r);
    OnGridAt(k * p, k, t, p);
    OnGridAt((k + 1) * p, k + 1, t, p);
  }

  /** On a finer grid. */
  lemma FinerGrid(left: nat, t: nat, p: nat)
    requires p > 0 && left % (2 * p) == 0
    ensures OnGrid(left, t, p)
  {
    var m := left / (2 * p);
    assert left == m * (2 * p);
    DoubleProduct(m, p);
    assert left == 2 * m * p;
    OnGridAt(left, 2 * m, t, p);
  }

  // ----- subtracting again and again -----

  function Pow2(j: nat): (p: nat)
    ensures p > 0
  {
    if j == 0 then 1 else 2 * Pow2(j - 1)
  }

  /** Numbers of single precision this large are multiples of 2^j. */
  function Large(j: nat): nat { 8388608 * Pow2(j) }

  /** Which grid a number is on: `x` is below `2 * Large(j)`, and from 2^24 on at least `Large(j)`. */
  function SizeOf(x: nat): nat {
    if x < 16777216 then 0 else 1 + SizeOf(x / 2)
  }

  lemma {:induction false} SizeFits(x: nat)
    ensures x < 2 * Large(SizeOf(x)) && (x >= 8388608 ==> x >= Large(SizeOf(x)))
  {
    if x >= 16777216 {
      SizeFits(x / 2);
    }
  }

  lemma {:induction false} SizeAtMost(x: nat, j: nat)
    requires x < 2 * Large(j)
    ensures Pow2(SizeOf(x)) <= Pow2(j)
  {
    if x >= 16777216 {
      SizeAtMost(x / 2, j - 1);
    }
  }

  /**
   How far pieces of length `t` reach, if what is left is rounded to multiples
   of 2^j as long as it is at least `Large(j)`, of 2^(j - 1) below that, and so
   on: the pieces cut off at one grid are as many as it takes, and each takes
   `Nearest(t, 2^j)` away. Below 2^24 nothing is rounded.
   */
  function Reach(left: nat, t: nat, j: nat): nat
    requires t >= Pow2(j)
    decreases j
  {
    if j == 0 then left
    else if left < t + Large(j) then Reach(left, t, j - 1)
    else
      var n := Pieces(left, t, j);
      n * t + Reach(Rest(left, t, j, n), t, j - 1)
  }

  /** The pieces cut off at one grid. */
  function Pieces(left: nat, t: nat, j: nat): nat
    requires t >= Pow2(j) && left >= t + Large(j)
  {
    NearestClose(t, Pow2(j));
    Parts(left - t - Large(j), Nearest(t, Pow2(j)));
    (left - t - Large(j)) / Nearest(t, Pow2(j)) + 1
  }

  /** What is left after so many of them. */
  function Rest(left: nat, t: nat, j: nat, n: nat): nat
    requires t >= Pow2(j)
  {
    if n * Nearest(t, Pow2(j)) <= left then left - n * Nearest(t, Pow2(j)) else 0
  }

  /** One piece at a time comes to the same. */
  lemma ReachOnce(left: nat, t: nat, j: nat)
    requires j > 0 && t >= Pow2(j) && left >= t + Large(j)
    ensures Nearest(t, Pow2(j)) <= left
    ensures Reach(left, t, j) == t + Reach(left - Nearest(t, Pow2(j)), t, j)
  {
    var c := Nearest(t, Pow2(j));
    PiecesOnce(left, t, j);
    if left < c + t + Large(j) {
      assert Rest(left, t, j, 1) == left - c;
    } else {
      var n := Pieces(left - c, t, j);
      RestMore(left, t, j, n);
      TimesMore(n, t);
    }
  }

  lemma PiecesOnce(left: nat, t: nat, j: nat)
    requires t >= Pow2(j) && left >= t + Large(j)
    ensures var c := Nearest(t, Pow2(j));
            c <= left && Pieces(left, t, j) == if left < c + t + Large(j) then 1 else Pieces(left - c, t, j) + 1
  {
    var c := Nearest(t, Pow2(j));
    NearestClose(t, Pow2(j));
    assert Pow2(j) <= Large(j);
    var x := left - t - Large(j);
    if x < c {
      DivUnique(x, c, 0);
    } else {
      DivMore(x, c);
    }
  }

  lemma DivMore(x: nat, c: nat)
    requires c > 0 && x >= c
    ensures x / c == (x - c) / c + 1 && (x - c) / c >= 0
  {
    var k := (x - c) / c;
    assert k * c <= x - c < k * c + c && (k + 1) * c == k * c + c;
    DivUnique(x, c, k + 1);
    if k < 0 {
      MulMono(k + 1, 0, c);
    }
  }

  lemma TimesMore(k: nat, t: nat)
    ensures (k + 1) * t == t + k * t
  {
  }

  lemma RestMore(left: nat, t: nat, j: nat, n: nat)
    requires t >= Pow2(j) && Nearest(t, Pow2(j)) <= left
    ensures Rest(left, t, j, n + 1) == Rest(left - Nearest(t, Pow2(j)), t, j, n)
  {
    TimesMore(n, Nearest(t, Pow2(j)));
  }
}
