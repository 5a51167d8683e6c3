/**
 The playlist of an HTTP live stream: the file is cut into segments of equal
 length, long enough for their descriptions to fit a buffer of fixed size.
 The duration is a number of single precision, and so is what is left of it
 after each segment.
 */
module Playlist {
  import opened Decimals
  import opened Arith
  import opened Grid
  import opened Floats
  import opened Rounding

  const PREFIX_START := "#EXTM3U\r\n#EXT-X-ALLOW-CACHE:YES\r\n#EXT-X-MEDIA-SEQUENCE:0\r\n#EXT-X-TARGETDURATION:"
  const SUFFIX := "#EXT-X-ENDLIST\r\n"

  const MAX_SIZE: nat := 10000
  const MAX_INT_LEN: nat := 10

  /** Format strings are counted with their conversions: two characters each. */
  const PREFIX_FMT_LEN: nat := |PREFIX_START| + 4
  const SPEC_FMT_LEN: nat := 31

  datatype Segment = Segment(start: nat, length: nat)

  function Prefix(target: nat): string { PREFIX_START + Decimal(target) + "\r\n" }

  function Spec(name: string, s: Segment): string {
    "#EXTINF:" + Decimal(s.length) + ",\r\n" + name + "?segment=" + PrintedSigned(s.start) + "," + Decimal(s.length)
      + "\r\n"
  }

  function Specs(describe: Segment -> string, es: seq<Segment>): string {
    if es == [] then "" else Specs(describe, es[..|es| - 1]) + describe(es[|es| - 1])
  }

  /** How the segments of a file are described. */
  function Describing(name: string): Segment -> string {
    s => Spec(name, s)
  }

  function Text(name: string, target: nat, es: seq<Segment>): string {
    Prefix(target) + Specs(Describing(name), es) + SUFFIX
  }

  /** How many segments there is certainly room for. */
  function MaxSpecs(name: string): (most: nat)
    ensures |name| < 200 ==> most >= 38
  {
    assert |name| < 200 ==> 9890 / (61 + |name|) >= 38 by { RoomForSpecs(61 + |name|); }
    (MAX_SIZE - (PREFIX_FMT_LEN + MAX_INT_LEN + |SUFFIX|)) / (SPEC_FMT_LEN + MAX_INT_LEN + |name| + 2 * MAX_INT_LEN)
  }

  lemma RoomForSpecs(n: nat)
    requires n > 0
    ensures n <= 260 ==> 9890 / n >= 38
    ensures 9890 / n * n <= 9890
  {
    Quotient(9890, n);
    if n <= 260 && 9890 / n < 38 {
      Widened(9890 / n + 1, 38, n, 260);
    }
  }

  /** Segments one after the other, from 0 up to `total`, without gap or overlap. */
  ghost predicate Tiles(es: seq<Segment>, total: nat) {
    && es != []
    && es[0].start == 0
    && (forall i | 0 < i < |es| :: es[i].start == es[i - 1].start + es[i - 1].length)
    && es[|es| - 1].start + es[|es| - 1].length == total
  }

  /** All but the last are of the target length, and the last is no longer; none is empty unless it is the only one. */
  ghost predicate Even(es: seq<Segment>, target: nat) {
    && (forall i | 0 <= i < |es| - 1 :: es[i].length == target)
    && (forall i | 0 <= i < |es| :: es[i].length <= target && (|es| > 1 ==> es[i].length > 0))
  }

  function Target(duration: real, most: nat): (t: nat)
    requires duration >= 0.0 && most > 0
    ensures t >= 10
  {
    AtLeastTen(WholeAbove(duration / most as real))
  }

  function AtLeastTen(t: nat): nat {
    if t < 10 then 10 else t
  }

  /** The share is rounded, and so is the sum; then the fraction is dropped. */
  function WholeAbove(share: real): nat
    requires share >= 0.0
  {
    Single(Single(share) + 1.0).Floor
  }

  /** One segment: as long as the target, unless no more than that is left. */
  function Chunk(left: real, target: nat): nat
    requires left >= 0.0
  {
    if target as real < left then target else left.Floor
  }

  /**
   The segments that the program cuts, and what is left of the duration before
   each of them and after the last: each difference is rounded, and the last
   is the first below 1.
   */
  ghost predicate Cut(round: real -> real, es: seq<Segment>, lefts: seq<real>, duration: real, target: nat) {
    Cutting(round, es, lefts, duration, target) && es != [] && lefts[|es|] < 1.0
  }

  ghost predicate Cutting(round: real -> real, es: seq<Segment>, lefts: seq<real>, duration: real, target: nat) {
    && Rounds(round) && Exact(round, duration)
    && |lefts| == |es| + 1 && lefts[0] == duration
    && (forall i | 0 <= i < |es| :: CutOff(round, es[i], lefts[i], lefts[i + 1], target))
    && (forall i | 0 < i < |es| :: lefts[i] >= 1.0)
    && (es != [] ==> es[0].start == 0)
    && (forall i | 0 < i < |es| :: es[i].start == es[i - 1].start + es[i - 1].length)
  }

  predicate CutOff(round: real -> real, e: Segment, left: real, after: real, target: nat) {
    left >= 0.0 && e.length == Chunk(left, target) && after == round(left - e.length as real)
  }

  // ----- the target is long enough -----

  /**
   The target is hardly less than an equal share, and more than it unless that is huge; nor is
   it much more, unless that is less than 10.
   */
  lemma TargetEnough(duration: real, most: nat)
    requires 0.0 < duration < 2147483648.0 && most >= 38
    ensures var t, share := Target(duration, most), duration / most as real;
            && t as real >= share - 8.0 && (share < TWO24 ==> t as real > share)
            && IsSingle(t as real) && t < 0x8000_0000
            && (t == 10 || t as real <= share + 9.0) && (t == 10 || share >= 16777210.0 || t as real <= share + 2.0)
  {
    var share := duration / most as real;
    ShareSmall(duration, most);
    RoundedShare(share);
    WholeSingle(10);
  }

  lemma ShareSmall(duration: real, most: nat)
    requires 0.0 < duration < 2147483648.0 && most >= 38
    ensures 0.0 <= duration / most as real <= 60000000.0
  {
    var m, share := most as real, duration / most as real;
    assert share * m == duration;
    if share > 60000000.0 {
      Product(60000000.0, share, 38.0, m);
    }
  }

  lemma Product(a: real, b: real, c: real, d: real)
    requires 0.0 <= a <= b && 0.0 <= c <= d
    ensures a * c <= b * d
  {
    assert a * c <= b * c;
    assert b * c <= b * d;
  }

  lemma RoundedShare(share: real)
    requires 0.0 <= share <= 60000000.0
    ensures var t := WholeAbove(share);
            && t as real >= share - 8.0 && (share < TWO24 ==> t as real > share) && t < 0x8000_0000
            && IsSingle(t as real) && t as real <= share + 9.0 && (share < 16777210.0 ==> t as real <= share + 2.0)
  {
    ShareNear(share);
    if share < 16777210.0 {
      ShareBelow(share);
    }
    if share < TWO24 {
      ShareAbove(share);
    }
    FloorSingle(Single(share) + 1.0);
  }

  lemma ShareNear(share: real)
    requires 0.0 <= share <= 60000000.0
    ensures share - 8.0 <= WholeAbove(share) as real < 60000010.0 && WholeAbove(share) as real <= share + 9.0
  {
    Near(share);
    Near(Single(share) + 1.0);
  }

  lemma ShareAbove(share: real)
    requires 0.0 <= share < TWO24
    ensures WholeAbove(share) as real > share
  {
    var a, whole := Single(share), share.Floor;
    AtLeast(whole, share);
    AtLeast(whole + 1, a + 1.0);
    NextWhole(Single(a + 1.0), whole + 1);
  }

  lemma ShareBelow(share: real)
    requires 0.0 <= share < 16777210.0
    ensures WholeAbove(share) as real <= share + 2.0
  {
    var f := share.Floor;
    RoundedBetween(f, share, f + 1, 149);
    RoundedBetween(f + 1, Single(share) + 1.0, f + 2, 149);
  }

  lemma NextWhole(b: real, n: nat)
    requires b >= n as real
    ensures b.Floor >= n
  {
    var f := b.Floor;
    assert b < f as real + 1.0;
  }

  lemma FloorSingle(x: real)
    requires x >= 0.0
    ensures IsSingle(Single(x).Floor as real)
  {
    var b := Single(x);
    SingleTwice(x);
    if b >= TWO23 {
      LargeWhole(b);
    } else {
      WholeSingle(b.Floor);
    }
  }

  /** Rounding moves a number this size by less than 4. */
  lemma Near(x: real)
    requires 0.0 <= x <= 60000010.0
    ensures x - 4.0 < Single(x) < x + 4.0
  {
    if x >= TWO24 {
      SingleError(x);
    } else {
      RoundedBetween(x.Floor, x, x.Floor + 1, 149);
    }
  }

  lemma OneMore(k: nat, t: nat)
    ensures (k + 1) * t == k * t + t
  {
  }

  // ----- everything fits -----

  lemma SpecsPossible(name: string)
    ensures MaxSpecs(name) * (SPEC_FMT_LEN + 30 + |name|) <= 9890
  {
    RoomForSpecs(SPEC_FMT_LEN + 30 + |name|);
  }

  /** There is room for so many descriptions, each of 61 characters and the name, and not certainly for one more. */
  lemma MaxSpecsIs(name: string)
    ensures MaxSpecs(name) * (61 + |name|) <= 9890 < (MaxSpecs(name) + 1) * (61 + |name|)
  {
    Quotient(9890, 61 + |name|);
  }

  lemma Quotient(x: nat, n: nat)
    requires n > 0
    ensures x / n * n <= x < (x / n + 1) * n
  {
  }

  lemma Widened(a: nat, b: nat, n: nat, m: nat)
    requires a <= b && n <= m
    ensures a * n <= b * m
  {
  }

  /** No description is longer than what is allowed for. */
  ghost predicate Short(describe: Segment -> string, n: nat) {
    forall s: Segment :: s.start < 0x1_0000_0000 && s.length < 0x8000_0000 ==> |describe(s)| <= 54 + n
  }

  lemma SpecLength(name: string)
    ensures Short(Describing(name), |name|)
  {
    forall s: Segment | s.start < 0x1_0000_0000 && s.length < 0x8000_0000
      ensures |Describing(name)(s)| <= 54 + |name|
    {
      TenDigits(if s.start < 0x8000_0000 then s.start else 0x1_0000_0000 - s.start);
      TenDigits(s.length);
    }
  }

  /** `k` descriptions at most have been written. */
  predicate Room(s: nat, k: nat, n: nat) {
    s <= 92 + k * (54 + n)
  }

  /** A buffer that holds so many descriptions has room for another, and the end. */
  lemma RoomForOne(s: nat, t: nat, k: nat, most: nat, n: nat)
    requires Room(s, k, n) && k <= most && 38 <= most && most * (61 + n) <= 9890 && n < 200 && t <= s + (54 + n)
    ensures t + 16 < MAX_SIZE && Room(t, k + 1, n)
  {
    var each := 54 + n;
    Widened(k, most, each, each);
    Spare(most, each);
    OneMore(k, each);
  }

  /** Each description leaves seven characters of what is allowed for it. */
  lemma Spare(most: nat, each: nat)
    ensures most * (7 + each) == 7 * most + most * each
  {
  }

  // ----- what is left -----

  /** How far the segments are from where what is left says they are. */
  function Drift(es: seq<Segment>, lefts: seq<real>, i: nat): real
    requires i < |es| && |lefts| == |es| + 1
  {
    es[i].start as real + lefts[i]
  }

  /** The start of each segment and what is left before it always make up the duration. */
  ghost predicate InStep(es: seq<Segment>, lefts: seq<real>, duration: real)
    requires |lefts| == |es| + 1
  {
    forall i: nat | i < |es| :: Drift(es, lefts, i) == duration
  }

  /** If anything is left after a segment of the target length, it is a number of single precision. */
  predicate ExactOnce(round: real -> real, left: real, target: nat) {
    target as real < left ==> Exact(round, left - target as real)
  }

  lemma LeftExact(round: real -> real, es: seq<Segment>, lefts: seq<real>, duration: real, target: nat, i: nat)
    requires Cutting(round, es, lefts, duration, target) && i <= |es|
    ensures Exact(round, lefts[i])
  {
    if i > 0 {
      assert CutOff(round, es[i - 1], lefts[i - 1], lefts[i], target);
      RoundedExact(round, lefts[i - 1] - es[i - 1].length as real);
    }
  }

  /** A segment that is not longer than the target takes all whole seconds. */
  lemma RestExact(round: real -> real, left: real, target: nat)
    requires Rounds(round) && Exact(round, left) && left <= target as real
    ensures round(left - left.Floor as real) == left - left.Floor as real < 1.0
  {
    SmallDifference(round, left, left.Floor);
  }

  /** All segments but the last are as long as the target, and more than that is left before each. */
  lemma FullBefore(round: real -> real, es: seq<Segment>, lefts: seq<real>, duration: real, target: nat, i: nat)
    requires Cutting(round, es, lefts, duration, target) && i < |es| && lefts[i + 1] >= 1.0
    ensures es[i].length == target && target as real < lefts[i] && lefts[i + 1] == round(lefts[i] - target as real)
  {
    assert CutOff(round, es[i], lefts[i], lefts[i + 1], target);
    LeftExact(round, es, lefts, duration, target, i);
    if lefts[i] <= target as real {
      RestExact(round, lefts[i], target);
    }
  }

  /** An exact difference stays exact, to the end. */
  lemma {:induction false} ExactFrom(round: real -> real, es: seq<Segment>, lefts: seq<real>, duration: real,
    target: nat, i: nat, j: nat)
    requires Cutting(round, es, lefts, duration, target) && i <= j < |es| && ExactOnce(round, lefts[i], target)
    ensures Drift(es, lefts, j) == Drift(es, lefts, i) && ExactOnce(round, lefts[j], target)
    decreases j
  {
    if i < j {
      ExactFrom(round, es, lefts, duration, target, i, j - 1);
      FullBefore(round, es, lefts, duration, target, j - 1);
      LeftExact(round, es, lefts, duration, target, j - 1);
      if target as real < lefts[j] {
        SameDifference(round, lefts[j - 1], target);
      }
    }
  }

  /** The program keeps in step if and only if its first subtraction is exact. */
  lemma InStepIff(round: real -> real, es: seq<Segment>, lefts: seq<real>, duration: real, target: nat)
    requires Cut(round, es, lefts, duration, target)
    ensures InStep(es, lefts, duration) <==> ExactOnce(round, duration, target)
  {
    if ExactOnce(round, duration, target) {
      forall i: nat | i < |es|
        ensures Drift(es, lefts, i) == duration
      {
        ExactFrom(round, es, lefts, duration, target, 0, i);
      }
    } else if |es| > 1 {
      FullBefore(round, es, lefts, duration, target, 0);
      assert Drift(es, lefts, 1) == target as real + lefts[1];
    } else {
      assert CutOff(round, es[0], lefts[0], lefts[1], target);
      var x := duration - target as real;
      if x >= 1.0 {
        NotBelow(round, 1, x);
      }
      SmallDifference(round, duration, target);
    }
  }

  /** Up to 2^24 seconds and a segment the first subtraction is exact. */
  lemma ExactBelow(round: real -> real, duration: real, target: nat)
    requires Rounds(round) && Exact(round, duration) && duration <= TWO24 + target as real
    ensures ExactOnce(round, duration, target)
  {
    if target as real < duration {
      SmallDifference(round, duration, target);
    }
  }

  // ----- what the segments cover -----

  function End(es: seq<Segment>): nat
    requires es != []
  {
    es[|es| - 1].start + es[|es| - 1].length
  }

  /** Whatever is rounded, the segments follow one another and are even. */
  lemma CutEven(round: real -> real, es: seq<Segment>, lefts: seq<real>, duration: real, target: nat)
    requires Cut(round, es, lefts, duration, target) && target > 0
    ensures Tiles(es, End(es)) && Even(es, target)
  {
    forall i | 0 <= i < |es|
      ensures es[i].length <= target && (i < |es| - 1 ==> es[i].length == target) && (|es| > 1 ==> es[i].length > 0)
    {
      assert CutOff(round, es[i], lefts[i], lefts[i + 1], target);
      if i < |es| - 1 {
        FullBefore(round, es, lefts, duration, target, i);
      }
    }
  }

  /** The last segment ends less than a second before its start and what is left before it say. */
  lemma LastEnds(round: real -> real, es: seq<Segment>, lefts: seq<real>, duration: real, target: nat)
    requires Cut(round, es, lefts, duration, target)
    ensures End(es) as real <= Drift(es, lefts, |es| - 1) < End(es) as real + 1.0
  {
    var n := |es| - 1;
    assert CutOff(round, es[n], lefts[n], lefts[n + 1], target);
    if target as real < lefts[n] && lefts[n] - target as real >= 1.0 {
      NotBelow(round, 1, lefts[n] - target as real);
    }
  }

  /** In step, the segments tile the file up to its last whole second, and there are not too many. */
  lemma InStepTiles(round: real -> real, es: seq<Segment>, lefts: seq<real>, duration: real, target: nat, most: nat)
    requires Cut(round, es, lefts, duration, target) && target > 0 && InStep(es, lefts, duration)
    ensures Tiles(es, duration.Floor) && Even(es, target)
    ensures target as real * most as real > duration > 0.0 ==> |es| <= most
  {
    var n := |es| - 1;
    CutEven(round, es, lefts, duration, target);
    LastEnds(round, es, lefts, duration, target);
    assert Drift(es, lefts, n) == duration;
    StartOf(es, target, n);
    if target as real * most as real > duration > 0.0 {
      NotTooMany(n, target, most, duration);
    }
  }

  lemma NotTooMany(n: nat, target: nat, most: nat, duration: real)
    requires (n * target) as real <= duration < target as real * most as real
    ensures n < most
  {
  }

  lemma {:induction false} StartOf(es: seq<Segment>, target: nat, i: nat)
    requires i < |es| && Even(es, target) && Tiles(es, End(es))
    ensures es[i].start == i * target
  {
    if i > 0 {
      StartOf(es, target, i - 1);
      OneMore(i - 1, target);
    }
  }

  // ----- how far the segments reach -----

  /** The target is no smaller than the grid that the first difference is rounded to. */
  predicate Coarse(duration: real, target: nat)
    requires duration >= 0.0
  {
    target <= duration.Floor ==> Pow2(SizeOf(duration.Floor - target)) <= target
  }

  /**
   The end of the last segment, worked out from the duration and the target: if
   a difference of 2^24 or more has to be rounded, then the first is rounded on
   the grid of its size, and the others as `Reach` says.
   */
  function Covered(duration: real, target: nat): nat
    requires duration >= 0.0 && Coarse(duration, target)
  {
    var d := duration.Floor;
    if d < target + 16777216 then d
    else
      var j := SizeOf(d - target);
      target + Reach(Nearest(d - target, Pow2(j)), target, j)
  }

  /** Whatever is rounded, the last segment ends there. */
  lemma EndExact(round: real -> real, es: seq<Segment>, lefts: seq<real>, duration: real, target: nat)
    requires Cut(round, es, lefts, duration, target) && Coarse(duration, target)
    ensures End(es) == Covered(duration, target)
  {
    if duration.Floor < target + 16777216 {
      ExactBelow(round, duration, target);
      EndInStep(round, es, lefts, duration, target, 0);
    } else {
      EndFar(round, es, lefts, duration, target, SizeOf(duration.Floor - target));
    }
  }

  /** From an exact difference on, the start of the segment and what is left decide where the last one ends. */
  lemma EndInStep(round: real -> real, es: seq<Segment>, lefts: seq<real>, duration: real, target: nat, i: nat)
    requires Cut(round, es, lefts, duration, target) && i < |es| && ExactOnce(round, lefts[i], target)
    ensures End(es) as real <= Drift(es, lefts, i) < End(es) as real + 1.0
  {
    ExactFrom(round, es, lefts, duration, target, i, |es| - 1);
    LastEnds(round, es, lefts, duration, target);
  }

  /** The first difference is rounded. */
  lemma EndFar(round: real -> real, es: seq<Segment>, lefts: seq<real>, duration: real, target: nat, j: nat)
    requires Cut(round, es, lefts, duration, target) && target + 16777216 <= duration.Floor
    requires j == SizeOf(duration.Floor - target) && Pow2(j) <= target
    ensures End(es) == target + Reach(Nearest(duration.Floor - target, Pow2(j)), target, j)
  {
    var d := duration.Floor;
    SizeFits(d - target);
    var left := FirstDifference(round, duration, target, j);
    var next := Nearest(left - target, Pow2(j));
    NearestClose(left - target, Pow2(j));
    assert CutOff(round, es[0], lefts[0], lefts[1], target);
    assert lefts[1] == next as real;
    ReachFrom(round, es, lefts, duration, target, 1, next, j);
  }

  /** What is left is on a grid, and stays on it as long as it is large enough. */
  lemma {:induction false} ReachFrom(round: real -> real, es: seq<Segment>, lefts: seq<real>, duration: real,
    target: nat, i: nat, left: nat, j: nat)
    requires Cut(round, es, lefts, duration, target) && i < |es| && lefts[i] == left as real
    requires Pow2(j) <= target && OnGrid(left, target, Pow2(j)) && left < target + 2 * Large(j)
    ensures End(es) == es[i].start + Reach(left, target, j)
    decreases |es| - i, j
  {
    if j == 0 {
      LeftExact(round, es, lefts, duration, target, i);
      ExactBelow(round, left as real, target);
      EndInStep(round, es, lefts, duration, target, i);
    } else if left < target + Large(j) {
      FinerGrid(left, target, Pow2(j - 1));
      ReachFrom(round, es, lefts, duration, target, i, left, j - 1);
    } else {
      var next := left - Nearest(target, Pow2(j));
      ReachOnce(left, target, j);
      NextOnGrid(round, es, lefts, duration, target, i, left, j);
      ReachFrom(round, es, lefts, duration, target, i + 1, next, j);
    }
  }

  /** One more segment. */
  lemma NextOnGrid(round: real -> real, es: seq<Segment>, lefts: seq<real>, duration: real, target: nat, i: nat,
    left: nat, j: nat)
    requires Cut(round, es, lefts, duration, target) && i < |es| && lefts[i] == left as real
    requires Pow2(j) <= target && OnGrid(left, target, Pow2(j)) && target + Large(j) <= left < target + 2 * Large(j)
    ensures var c := Nearest(target, Pow2(j));
            && c <= left && OnGrid(left - c, target, Pow2(j)) && left - c < target + 2 * Large(j)
            && i + 1 < |es| && lefts[i + 1] == (left - c) as real && es[i + 1].start == es[i].start + target
  {
    assert CutOff(round, es[i], lefts[i], lefts[i + 1], target);
    GridDifference(round, left, target, j);
    NearestClose(target, Pow2(j));
  }

  /** The segments tile the file if and only if the last one ends with it. */
  lemma TilesIff(round: real -> real, es: seq<Segment>, lefts: seq<real>, duration: real, target: nat)
    requires Cut(round, es, lefts, duration, target) && target > 0 && Coarse(duration, target)
    ensures Tiles(es, duration.Floor) <==> Covered(duration, target) == duration.Floor
  {
    EndExact(round, es, lefts, duration, target);
    CutEven(round, es, lefts, duration, target);
  }

  /** There are at most so many segments if and only if so many of the target length reach as far. */
  lemma CountIff(round: real -> real, es: seq<Segment>, lefts: seq<real>, duration: real, target: nat, most: nat)
    requires Cut(round, es, lefts, duration, target) && target > 0 && most > 0 && Coarse(duration, target)
    ensures |es| <= most <==> Covered(duration, target) <= most * target
  {
    EndExact(round, es, lefts, duration, target);
    CutEven(round, es, lefts, duration, target);
    var n := |es| - 1;
    StartOf(es, target, n);
    if n < most {
      Widened(n + 1, most, target, target);
      OneMore(n, target);
    } else {
      Widened(most, n, target, target);
    }
  }

  // ----- the program -----

  /** What is known of the target when cutting begins. */
  ghost predicate Suitable(round: real -> real, duration: real, target: nat, most: nat) {
    && Rounds(round) && Exact(round, duration) && Exact(round, target as real)
    && 0.0 < duration < 2147483648.0 && 10 <= target < 0x8000_0000 && 38 <= most <= 162
    && (target * most) as real >= duration - 1296.0 && target as real >= 0.00617 * duration - 8.0
    && (duration < TWO24 ==> (target * most) as real > duration)
  }

  /** How much a rounded difference may be off. */
  function Slack(duration: real): real {
    if duration <= TWO24 then 0.0 else 129.0
  }

  /** So many whole segments have been cut, and something is left: a second at least, if there are any segments. */
  ghost predicate Underway(round: real -> real, es: seq<Segment>, lefts: seq<real>, left: real, duration: real,
    target: nat, most: nat, durSoFar: nat) {
    && Cutting(round, es, lefts, duration, target) && |es| <= most
    && durSoFar == |es| * target == (if es == [] then 0 else End(es))
    && left == lefts[|es|] && left > 0.0 && (es != [] ==> left >= 1.0)
    && left + durSoFar as real <= duration + |es| as real * Slack(duration)
  }

  lemma OneMoreSlack(k: nat, slack: real)
    ensures (k + 1) as real * slack == k as real * slack + slack
  {
  }

  lemma SlackBounded(k: nat, most: nat, slack: real)
    requires k <= most <= 162 && 0.0 <= slack <= 129.0
    ensures k as real * slack <= 20898.0
  {
    Product(k as real, 162.0, slack, 129.0);
  }

  /** A segment of the target length leaves what it should, give or take the slack. */
  lemma NearlyLess(round: real -> real, left: real, target: nat, duration: real)
    requires Rounds(round) && Exact(round, left) && target as real < left
    requires left <= duration + 20898.0 && duration < 2147483648.0 && (duration <= TWO24 ==> left <= duration)
    ensures round(left - target as real) <= left - target as real + Slack(duration)
  {
    var x := left - target as real;
    if x <= TWO24 {
      SmallDifference(round, left, target);
    } else {
      NearlyExact(round, x);
    }
  }

  /** One more segment, whole or not. */
  lemma CutMore(round: real -> real, es: seq<Segment>, lefts: seq<real>, duration: real, target: nat, start: nat)
    requires Cutting(round, es, lefts, duration, target) && (es != [] ==> lefts[|es|] >= 1.0)
    requires start == (if es == [] then 0 else End(es)) && lefts[|es|] >= 0.0
    ensures var left := lefts[|es|];
            var dur := Chunk(left, target);
            Cutting(round, es + [Segment(start, dur)], lefts + [round(left - dur as real)], duration, target)
  {
  }

  /** With as many whole segments as there is room for, no more than one segment is left. */
  lemma Enough(round: real -> real, es: seq<Segment>, lefts: seq<real>, left: real, duration: real, target: nat,
    most: nat, durSoFar: nat)
    requires Suitable(round, duration, target, most)
             && Underway(round, es, lefts, left, duration, target, most, durSoFar)
    ensures target as real < left ==> |es| < most
    ensures durSoFar < 0x1_0000_0000
  {
    SlackBounded(|es|, most, Slack(duration));
    if |es| == most {
      assert durSoFar == target * most;
    }
  }

  /** After one more segment either less than a second is left, or things are as before. */
  lemma Advance(round: real -> real, es: seq<Segment>, lefts: seq<real>, left: real, duration: real, target: nat,
    most: nat, durSoFar: nat)
    requires Suitable(round, duration, target, most)
             && Underway(round, es, lefts, left, duration, target, most, durSoFar)
    ensures var dur := Chunk(left, target);
            var after := round(left - dur as real);
            var more, lefts' := es + [Segment(durSoFar, dur)], lefts + [after];
            && after >= 0.0
            && if after < 1.0 then Cut(round, more, lefts', duration, target)
               else Underway(round, more, lefts', after, duration, target, most, durSoFar + dur)
  {
    var dur := Chunk(left, target);
    CutMore(round, es, lefts, duration, target, durSoFar);
    LeftExact(round, es, lefts, duration, target, |es|);
    RoundedExact(round, left - dur as real);
    if target as real < left {
      SlackBounded(|es|, most, Slack(duration));
      Enough(round, es, lefts, left, duration, target, most, durSoFar);
      NearlyLess(round, left, target, duration);
      OneMoreSlack(|es|, Slack(duration));
      OneMore(|es|, target);
    } else {
      RestExact(round, left, target);
    }
  }

  /** `sprintf` at `s`, the final NUL included. */
  method Append(playlist: array<char>, s: nat, text: string) returns (end: nat)
    requires s + |text| < playlist.Length
    modifies playlist
    ensures end == s + |text| && playlist[..end] == old(playlist[..s]) + text && playlist[end] == '\0'
  {
    forall i | 0 <= i < |text| {
      playlist[s + i] := text[i];
    }
    end := s + |text|;
    playlist[end] := '\0';
  }

  /**
   One segment: as long as the target, unless no more than that is left. Both sides are
   compared in single precision.
   */
  method NextLength(round: real -> real, left: real, target: nat) returns (dur: nat)
    requires Rounds(round) && Exact(round, left) && Exact(round, target as real)
    ensures dur == Chunk(left, target) && Exact(round, dur as real)
  {
    if round(target as real) < left {
      dur := target;
    } else {
      dur := left.Floor;
      FloorExact(round, left);
    }
  }

  lemma FloorExact(round: real -> real, x: real)
    requires Rounds(round) && Exact(round, x)
    ensures Exact(round, x.Floor as real)
  {
    if x < TWO24 {
      WholeExact(round, x.Floor);
    } else {
      LargeExact(round, x);
    }
  }

  /**
   The playlist of a file of the given duration: its text, and the segments it
   describes. It never runs over its buffer. The segments follow one another
   from 0 to where `Covered` says: they tile the file up to its last whole
   second if and only if that is there, and are no more than there is certainly
   room for if and only if so many of the target length reach as far. They keep
   in step with what is left if and only if the first subtraction is exact, as
   it is up to 2^24 seconds and a segment.
   */
  method MakePlaylist(name: string, duration: real)
    returns (supported: bool, playlist: array<char>, len: nat, ghost es: seq<Segment>, ghost lefts: seq<real>)
    requires |name| < 200 && duration < 2147483648.0 && (duration > 0.0 ==> IsSingle(duration))
    ensures supported <==> duration > 0.0
    ensures fresh(playlist) && playlist.Length == MAX_SIZE && len < MAX_SIZE
    ensures supported ==>
              var most := MaxSpecs(name);
              var target := Target(duration, most);
              && playlist[..len] == Text(name, target, es) && playlist[len] == '\0'
              && Cut(Single, es, lefts, duration, target)
              && Coarse(duration, target)
              && Tiles(es, Covered(duration, target)) && Even(es, target) && |es| <= most + 1
              && (Tiles(es, duration.Floor) <==> Covered(duration, target) == duration.Floor)
              && (|es| <= most <==> Covered(duration, target) <= most * target)
              && (InStep(es, lefts, duration) <==> ExactOnce(Single, duration, target))
              && (ExactOnce(Single, duration, target) ==> Tiles(es, duration.Floor))
              && (ExactOnce(Single, duration, target) && (target * most) as real > duration ==> |es| <= most)
              && (duration <= TWO24 + target as real ==> ExactOnce(Single, duration, target))
              && (duration < TWO24 ==> |es| <= most)
  {
    if duration <= 0.0 {
      playlist := new char[MAX_SIZE];
      return false, playlist, 0, [], [];
    }
    var most := MaxSpecs(name);
    var target := Target(duration, most);
    TargetSuits(name, duration);
    PrefixLength(target);
    SpecsPossible(name);
    SpecLength(name);
    supported := true;
    playlist, len, es, lefts := Compose(Prefix(target), Describing(name), |name|, Single, duration, target, most,
      SUFFIX);
    CutOutcome(Single, es, lefts, duration, target, most);
  }

  lemma TargetSuits(name: string, duration: real)
    requires |name| < 200 && 0.0 < duration < 2147483648.0 && IsSingle(duration)
    ensures Suitable(Single, duration, Target(duration, MaxSpecs(name)), MaxSpecs(name))
  {
    var most := MaxSpecs(name);
    SpecsPossible(name);
    TargetEnough(duration, most);
    MostSpecs(most, |name|);
    SharesCover(Target(duration, most), duration, most);
  }

  lemma MostSpecs(most: nat, n: nat)
    requires most * (SPEC_FMT_LEN + 30 + n) <= 9890
    ensures most <= 162
  {
    Widened(most, most, 61, SPEC_FMT_LEN + 30 + n);
  }

  lemma SharesCover(t: nat, duration: real, most: nat)
    requires 38 <= most <= 162 && 0.0 < duration < 2147483648.0
    requires var share := duration / most as real; t as real >= share - 8.0 && (share < TWO24 ==> t as real > share)
    ensures (t * most) as real >= duration - 1296.0 && t as real >= 0.00617 * duration - 8.0
    ensures duration < TWO24 ==> (t * most) as real > duration
  {
    var m, share := most as real, duration / most as real;
    ShareBounds(duration, m, share);
    WholeProduct(t, most);
    Product(share, t as real + 8.0, m, m);
    assert t as real * m + 8.0 * m >= duration && 8.0 * m <= 1296.0;
    if duration < TWO24 {
      AboveQuotient(t as real, duration, m);
    }
  }

  lemma WholeProduct(t: nat, most: nat)
    ensures (t * most) as real == t as real * most as real
            && (t as real + 8.0) * most as real == t as real * most as real + 8.0 * most as real
  {
  }

  lemma ShareBounds(duration: real, m: real, share: real)
    requires 38.0 <= m <= 162.0 && 0.0 < duration && share == duration / m
    ensures share * m == duration && 0.0 < share <= duration <= 162.0 * share
  {
    assert share * m == duration;
    if share <= 0.0 {
      Product(0.0, -share, 0.0, m);
    }
    Product(share, share, m, 162.0);
    Product(share, share, 1.0, m);
  }

  lemma AboveQuotient(t: real, x: real, m: real)
    requires m > 0.0 && t > x / m
    ensures t * m > x
  {
  }

  /** What the segments of a playlist are like. */
  lemma CutOutcome(round: real -> real, es: seq<Segment>, lefts: seq<real>, duration: real, target: nat, most: nat)
    requires Suitable(round, duration, target, most) && Cut(round, es, lefts, duration, target)
    ensures Coarse(duration, target) && Tiles(es, Covered(duration, target)) && Even(es, target)
    ensures Tiles(es, duration.Floor) <==> Covered(duration, target) == duration.Floor
    ensures |es| <= most <==> Covered(duration, target) <= most * target
    ensures InStep(es, lefts, duration) <==> ExactOnce(round, duration, target)
    ensures ExactOnce(round, duration, target) ==> Tiles(es, duration.Floor)
    ensures ExactOnce(round, duration, target) && (target * most) as real > duration ==> |es| <= most
    ensures duration <= TWO24 + target as real ==> ExactOnce(round, duration, target)
    ensures duration < TWO24 ==> |es| <= most
  {
    SuitableCoarse(duration, target);
    CutEven(round, es, lefts, duration, target);
    EndExact(round, es, lefts, duration, target);
    TilesIff(round, es, lefts, duration, target);
    CountIff(round, es, lefts, duration, target, most);
    InStepIff(round, es, lefts, duration, target);
    if duration <= TWO24 + target as real {
      ExactBelow(round, duration, target);
    }
    if ExactOnce(round, duration, target) {
      InStepTiles(round, es, lefts, duration, target, most);
    }
  }

  lemma SuitableCoarse(duration: real, target: nat)
    requires 0.0 < duration < 2147483648.0 && target >= 10 && target as real >= 0.00617 * duration - 8.0
    ensures Coarse(duration, target)
  {
    var d := duration.Floor;
    if target <= d {
      assert Pow2(7) == 2 * Pow2(6) == 4 * Pow2(5) == 8 * Pow2(4) == 16 * Pow2(3);
      assert Pow2(3) == 2 * Pow2(2) == 4 * Pow2(1) == 8 * Pow2(0) == 8;
      SizeAtMost(d - target, 7);
      if d - target < 16777216 {
        assert SizeOf(d - target) == 0;
      }
    }
  }

  lemma PrefixLength(target: nat)
    requires target < 0x8000_0000
    ensures |Prefix(target)| <= 92 && |SUFFIX| == 16
  {
    TenDigits(target);
  }

  /** Prefix, descriptions and suffix. */
  method Compose(prefix: string, describe: Segment -> string, ghost n: nat, round: real -> real, duration: real,
    target: nat, most: nat, suffix: string)
    returns (playlist: array<char>, len: nat, ghost es: seq<Segment>, ghost lefts: seq<real>)
    requires |prefix| <= 92 && |suffix| <= 16 && Short(describe, n) && n < 200 && most * (61 + n) <= 9890
    requires Suitable(round, duration, target, most)
    ensures fresh(playlist) && playlist.Length == MAX_SIZE && len < MAX_SIZE
    ensures playlist[..len] == prefix + Specs(describe, es) + suffix && playlist[len] == '\0'
    ensures Cut(round, es, lefts, duration, target) && |es| <= most + 1
  {
    playlist := new char[MAX_SIZE];
    len := Append(playlist, 0, prefix);
    assert playlist[..len] == prefix;
    es, lefts, len := WriteSpecs(playlist, len, describe, n, round, duration, target, most);
    ghost var text := playlist[..len];
    len := Append(playlist, len, suffix);
    assert playlist[..len] == text + suffix;
  }

  /** Writes a description of each segment after what is there. */
  method WriteSpecs(playlist: array<char>, from: nat, describe: Segment -> string, ghost n: nat, round: real -> real,
    duration: real, target: nat, most: nat)
    returns (ghost es: seq<Segment>, ghost lefts: seq<real>, s: nat)
    requires playlist.Length == MAX_SIZE && from <= 92 && Short(describe, n) && n < 200 && most * (61 + n) <= 9890
    requires Suitable(round, duration, target, most)
    modifies playlist
    ensures s + 16 < MAX_SIZE && playlist[..s] == old(playlist[..from]) + Specs(describe, es)
    ensures Cut(round, es, lefts, duration, target) && |es| <= most + 1
  {
    es, lefts, s := [], [duration], from;
    var left, durSoFar: nat := duration, 0;
    ghost var text := playlist[..s];
    while true
      invariant Underway(round, es, lefts, left, duration, target, most, durSoFar)
      invariant |es| <= most && Room(s, |es|, n)
      invariant s < MAX_SIZE && playlist[..s] == text && text == old(playlist[..from]) + Specs(describe, es)
      decreases most - |es|
    {
      ghost var before, segment := es, Segment(durSoFar, Chunk(left, target));
      var dur;
      dur, left, es, lefts := NextSegment(round, es, lefts, left, duration, target, most, durSoFar);
      RoomForOne(s, s + |describe(segment)|, |before|, most, n);
      SpecsMore(old(playlist[..from]), describe, before, segment);
      s := Append(playlist, s, describe(Segment(durSoFar, dur)));
      text := text + describe(segment);
      if left < 1.0 {
        break;
      }
      durSoFar := durSoFar + dur;
    }
  }

  /** How long the next segment is, and what is left after it. */
  method NextSegment(round: real -> real, ghost es: seq<Segment>, ghost lefts: seq<real>, left: real,
    ghost duration: real, target: nat, ghost most: nat, durSoFar: nat)
    returns (dur: nat, after: real, ghost more: seq<Segment>, ghost lefts': seq<real>)
    requires Suitable(round, duration, target, most)
             && Underway(round, es, lefts, left, duration, target, most, durSoFar)
    ensures left >= 0.0 && dur == Chunk(left, target) && more == es + [Segment(durSoFar, dur)]
    ensures durSoFar < 0x1_0000_0000 && dur < 0x8000_0000 && |es| <= most
    ensures if after < 1.0 then Cut(round, more, lefts', duration, target)
            else Underway(round, more, lefts', after, duration, target, most, durSoFar + dur) && |more| <= most
  {
    LeftExact(round, es, lefts, duration, target, |es|);
    dur := NextLength(round, left, target);
    Enough(round, es, lefts, left, duration, target, most, durSoFar);
    Advance(round, es, lefts, left, duration, target, most, durSoFar);
    after := round(left - round(dur as real));
    more, lefts' := es + [Segment(durSoFar, dur)], lefts + [after];
  }

  lemma SpecsMore(prefix: string, describe: Segment -> string, es: seq<Segment>, s: Segment)
    ensures prefix + Specs(describe, es + [s]) == prefix + Specs(describe, es) + describe(s)
  {
  }

  // ----- playlists that miss -----

  /** A number whose fraction has no more than so many binary digits. */
  lemma {:induction false} ShortFraction(x: real, n: nat, k: nat)
    requires x >= 0.0 && k <= n && Whole(Scaled(x, k)) && Scaled(x, k) < TWO24
    ensures Rounded(x, n) == x
    decreases k
  {
    if k == 0 {
      WholeRounded(x.Floor, n);
    } else {
      ScaledMore(x, k);
      ScaledGrows(x, k);
      ShortFraction(2.0 * x, n - 1, k - 1);
    }
  }

  lemma {:induction false} ScaledMore(x: real, k: nat)
    requires k > 0
    ensures Scaled(2.0 * x, k - 1) == Scaled(x, k)
  {
    if k > 1 {
      ScaledMore(x, k - 1);
    }
  }

  lemma {:induction false} ScaledGrows(x: real, k: nat)
    requires x >= 0.0
    ensures Scaled(x, k) >= x && (k > 0 ==> Scaled(x, k) >= 2.0 * x)
  {
    if k > 0 {
      ScaledGrows(x, k - 1);
    }
  }

  /** 20840448 seconds (241 days), for a file whose name is one character: the segments reach 30 seconds too far. */
  lemma LongFileMissed(round: real -> real, name: string, es: seq<Segment>, lefts: seq<real>)
    requires |name| == 1 && Cut(round, es, lefts, 20840448.0, Target(20840448.0, MaxSpecs(name)))
    ensures End(es) == 20840478 && !Tiles(es, 20840448)
  {
    SpecsForOne(name);
    TargetThere(MaxSpecs(name));
    CoveredThere();
    EndExact(round, es, lefts, 20840448.0, 131073);
  }

  lemma SpecsForOne(name: string)
    requires |name| == 1
    ensures MaxSpecs(name) == 159
  {
  }

  lemma TargetThere(most: nat)
    requires most == 159
    ensures Target(20840448.0, most) == 131073
  {
    assert 20840448.0 / 159.0 == 131072.0;
    WholeSingle(131072);
    WholeSingle(131073);
  }

  lemma CoveredThere()
    ensures Coarse(20840448.0, 131073) && Covered(20840448.0, 131073) == 20840478
  {
    assert SizeOf(20709375) == 1 + SizeOf(10354687) == 1;
    assert Pow2(1) == 2 * Pow2(0) == 2 && Large(1) == 16777216;
    NearestIs(20709375, 2, 10354687, 1);
    NearestIs(131073, 2, 65536, 1);
    DivUnique(20709376 - 131073 - 16777216, 131072, 28);
    assert Pieces(20709376, 131073, 1) == 29;
    assert Reach(20709376, 131073, 1) == 29 * 131073 + Reach(20709376 - 29 * 131072, 131073, 0);
  }

  /** 25600124 seconds (296 days), for a file whose name has sixteen characters: there is one segment too many. */
  lemma TooManySegments(round: real -> real, name: string, es: seq<Segment>, lefts: seq<real>)
    requires |name| == 16 && Cut(round, es, lefts, 25600124.0, Target(25600124.0, MaxSpecs(name)))
    ensures |es| > MaxSpecs(name)
  {
    SpecsForSixteen(name);
    TargetFar(MaxSpecs(name));
    CoveredFar();
    CountIff(round, es, lefts, 25600124.0, 200001, 128);
  }

  lemma SpecsForSixteen(name: string)
    requires |name| == 16
    ensures MaxSpecs(name) == 128
  {
  }

  lemma TargetFar(most: nat)
    requires most == 128
    ensures Target(25600124.0, most) == 200001
  {
    assert 25600124.0 / 128.0 == 200000.96875;
    FiveDigits(200000.96875, 6400031);
    FiveDigits(200001.96875, 6400063);
    assert 200001.96875.Floor == 200001;
  }

  lemma FiveDigits(x: real, m: nat)
    requires x == m as real / 32.0 && m < 16777216
    ensures IsSingle(x)
  {
    assert Scaled(x, 1) == 2.0 * x;
    assert Scaled(x, 2) == 4.0 * x;
    assert Scaled(x, 3) == 8.0 * x;
    assert Scaled(x, 4) == 16.0 * x;
    ShortOne(x, m);
  }

  lemma ShortOne(x: real, m: nat)
    requires Scaled(x, 5) == m as real && m < 16777216 && x >= 0.0
    ensures IsSingle(x)
  {
    ScaledGrows(x, 5);
    ShortFraction(x, 149, 5);
  }

  lemma CoveredFar()
    ensures Coarse(25600124.0, 200001) && Covered(25600124.0, 200001) == 25600168
  {
    assert SizeOf(25400123) == 1 + SizeOf(12700061) == 1;
    assert Pow2(1) == 2 * Pow2(0) == 2 && Large(1) == 16777216;
    NearestIs(25400123, 2, 12700061, 1);
    NearestIs(200001, 2, 100000, 1);
    DivUnique(25400124 - 200001 - 16777216, 200000, 42);
    assert Pieces(25400124, 200001, 1) == 43;
    assert Reach(25400124, 200001, 1) == 43 * 200001 + Reach(25400124 - 43 * 200000, 200001, 0);
  }
}
