/**
 The bit cursor of libmad: `struct mad_bitptr` and the operations that read
 and skip bits through it.

 The specification is the buffer seen as one string of bits, most significant
 bit of each byte first. A cursor denotes a position in that string; reading
 yields the big-endian value of the bits that follow the position.
 */
module BitReader {
  import opened Octets

  type bit = b: nat | b < 2

  /** A sum or difference stored in an unsigned short wraps around. */
  function UShort(x: int): nat
    requires -0x1_0000 <= x < 0x2_0000
  {
    if x < 0 then x + 0x1_0000 else if x >= 0x1_0000 then x - 0x1_0000 else x
  }

  /** `x << k` */
  function Shl(x: nat, k: nat): nat {
    if k == 0 then x else 2 * Shl(x, k - 1)
  }

  /** `x >> k` */
  function Shr(x: nat, k: nat): nat {
    if k == 0 then x else Shr(x, k - 1) / 2
  }

  /** `x & ((1 << k) - 1)` */
  function Low(x: nat, k: nat): nat {
    if k == 0 then 0 else 2 * Low(x / 2, k - 1) + x % 2
  }

  /** The last `k` binary digits of `x`, most significant first. */
  function Digits(x: nat, k: nat): (r: seq<bit>)
    ensures |r| == k
  {
    if k == 0 then [] else Digits(x / 2, k - 1) + [x % 2]
  }

  /** The buffer as a string of bits. */
  function BitString(buf: seq<byte>): (r: seq<bit>)
    ensures |r| == 8 * |buf|
  {
    if buf == [] then [] else BitString(buf[..|buf| - 1]) + Digits(buf[|buf| - 1], 8)
  }

  /** Big-endian value of a string of bits. */
  function Value(bits: seq<bit>): nat {
    if bits == [] then 0 else 2 * Value(bits[..|bits| - 1]) + bits[|bits| - 1]
  }

  /** The `n` bits from position `pos` on. */
  function BitsAt(buf: seq<byte>, pos: nat, n: nat): (r: seq<bit>)
    requires pos + n <= 8 * |buf|
    ensures |r| == n
  {
    BitString(buf)[pos..pos + n]
  }

  lemma {:induction false} ValueBound(x: seq<bit>)
    ensures Value(x) < Shl(1, |x|)
  {
    if x != [] {
      ValueBound(x[..|x| - 1]);
    }
  }

  /** Two runs of bits, read apart, make up the value read in one go. */
  lemma {:induction false} ValueConcat(x: seq<bit>, y: seq<bit>)
    ensures Value(x + y) == Shl(Value(x), |y|) + Value(y)
  {
    if y == [] {
      assert x + y == x;
    } else {
      var y' := y[..|y| - 1];
      assert (x + y)[..|x + y| - 1] == x + y';
      ValueConcat(x, y');
    }
  }

  /** Shifting right drops bits from the end. */
  lemma {:induction false} ValueDrop(x: seq<bit>, k: nat)
    requires k <= |x|
    ensures Value(x[..|x| - k]) == Shr(Value(x), k)
  {
    if k == 0 {
      assert x[..|x| - k] == x;
    } else {
      ValueDrop(x, k - 1);
      var y := x[..|x| - (k - 1)];
      assert y[..|y| - 1] == x[..|x| - k];
    }
  }

  /** The bits of byte `i` sit at positions `8 * i` to `8 * i + 7`. */
  lemma {:induction false} ByteInString(buf: seq<byte>, i: nat)
    requires i < |buf|
    ensures BitString(buf)[8 * i..8 * i + 8] == Digits(buf[i], 8)
  {
    if i < |buf| - 1 {
      ByteInString(buf[..|buf| - 1], i);
    }
  }

  lemma {:induction false} DigitsTail(x: nat, k: nat, left: nat)
    requires left <= k
    ensures Digits(x, k)[k - left..] == Digits(x, left)
  {
    if left > 0 {
      DigitsTail(x / 2, k - 1, left - 1);
    }
  }

  /** Masking keeps the last digits. */
  lemma {:induction false} DigitsValue(x: nat, k: nat)
    ensures Value(Digits(x, k)) == Low(x, k)
  {
    if k > 0 {
      DigitsValue(x / 2, k - 1);
      assert Digits(x, k)[..k - 1] == Digits(x / 2, k - 1);
    }
  }

  /** Writing a value out again gives back the bits it was read from. */
  lemma {:induction false} DigitsOfValue(x: seq<bit>, k: nat)
    requires k <= |x|
    ensures Digits(Value(x), k) == x[|x| - k..]
  {
    if k > 0 {
      var x' := x[..|x| - 1];
      DigitsOfValue(x', k - 1);
      assert x[|x| - k..] == x'[|x'| - (k - 1)..] + [x[|x| - 1]];
    }
  }

  /** The first `len` of the last `left` bits of a byte: mask, then shift. */
  lemma ByteMiddle(b: byte, left: nat, len: nat)
    requires len <= left <= 8
    ensures Value(Digits(b, 8)[8 - left..8 - left + len]) == Shr(Low(b, left), left - len)
  {
    var x := Digits(b, left);
    DigitsTail(b, 8, left);
    DigitsValue(b, left);
    ValueDrop(x, left - len);
    assert x[..len] == Digits(b, 8)[8 - left..8 - left + len];
  }

  lemma {:induction false} LowAll(x: nat, k: nat)
    requires x < Shl(1, k)
    ensures Low(x, k) == x
  {
    if k > 0 {
      LowAll(x / 2, k - 1);
    }
  }

  lemma BytePrefix(b: byte, k: nat)
    requires k <= 8
    ensures Value(Digits(b, 8)[..k]) == Shr(b, 8 - k)
  {
    ByteMiddle(b, 8, k);
    assert Shl(1, 8) == 256;
    LowAll(b, 8);
    assert Digits(b, 8)[8 - 8..8 - 8 + k] == Digits(b, 8)[..k];
  }

  /** Bits `from` to `from + len` of byte `i`, found in the string. */
  lemma WithinByte(buf: seq<byte>, i: nat, from: nat, len: nat)
    requires i < |buf| && from + len <= 8
    ensures BitsAt(buf, 8 * i + from, len) == Digits(buf[i], 8)[from..from + len]
  {
    ByteInString(buf, i);
    SliceOfSlice(BitString(buf), 8 * i, 8, from, len);
  }

  lemma SliceOfSlice(x: seq<bit>, a: nat, n: nat, from: nat, len: nat)
    requires a + n <= |x| && from + len <= n
    ensures x[a..a + n][from..from + len] == x[a + from..a + from + len]
  {
    var part := x[a..a + n];
    var u, v := part[from..from + len], x[a + from..a + from + len];
    forall k | 0 <= k < len
      ensures u[k] == v[k]
    {
      assert part[from + k] == x[a + from + k];
    }
  }

  /** The next `len` bits when `left` bits of byte `i` remain. */
  lemma PartOfByte(buf: seq<byte>, i: nat, left: nat, len: nat)
    requires i < |buf| && len <= left <= 8
    ensures Value(BitsAt(buf, 8 * i + (8 - left), len)) == Shr(Low(buf[i], left), left - len)
  {
    WithinByte(buf, i, 8 - left, len);
    ByteMiddle(buf[i], left, len);
  }

  /** Extending a run that ends on a byte boundary by the first `k` bits of the next byte. */
  lemma AppendBits(buf: seq<byte>, pos: nat, n: nat, i: nat, k: nat)
    requires pos + n == 8 * i && i < |buf| && k <= 8
    ensures Value(BitsAt(buf, pos, n + k)) == Shl(Value(BitsAt(buf, pos, n)), k) + Shr(buf[i], 8 - k)
  {
    var x, y := BitsAt(buf, pos, n), Digits(buf[i], 8)[..k];
    WithinByte(buf, i, 0, k);
    assert BitsAt(buf, pos, n + k) == BitsAt(buf, pos, n) + BitsAt(buf, pos + n, k) == x + y;
    ValueConcat(x, y);
    BytePrefix(buf[i], k);
  }

  /** Reading `a` bits and then `b` bits is reading `a + b` bits. */
  lemma ReadsCompose(buf: seq<byte>, pos: nat, a: nat, b: nat)
    requires pos + a + b <= 8 * |buf|
    ensures Value(BitsAt(buf, pos, a + b)) == Shl(Value(BitsAt(buf, pos, a)), b) + Value(BitsAt(buf, pos + a, b))
  {
    ValueConcat(BitsAt(buf, pos, a), BitsAt(buf, pos + a, b));
    assert BitsAt(buf, pos, a + b) == BitsAt(buf, pos, a) + BitsAt(buf, pos + a, b);
  }

  /** One step of a client: read `len` bits, or skip `len` bits. */
  datatype Op = ReadOp(len: nat) | SkipOp(len: nat)

  function TotalLength(ops: seq<Op>): nat {
    if ops == [] then 0 else ops[0].len + TotalLength(ops[1..])
  }

  /**
   The operations stay within `size` bits and no read is longer than 32. A read
   looks at the byte under the cursor even when it takes nothing from it, so
   there must be one.
   */
  predicate Within(ops: seq<Op>, pos: nat, size: nat): (r: bool)
    ensures r ==> pos + TotalLength(ops) <= size
  {
    if ops == [] then pos <= size
    else
      && (ops[0].ReadOp? ==> ops[0].len <= 32 && (ops[0].len > 0 || pos < size))
      && Within(ops[1..], pos + ops[0].len, size)
  }

  /** What the reads among `ops` yield: the values of consecutive pieces of the bit string. */
  function Pieces(buf: seq<byte>, pos: nat, ops: seq<Op>): seq<nat>
    requires pos + TotalLength(ops) <= 8 * |buf|
    decreases |ops|
  {
    if ops == [] then []
    else (if ops[0].ReadOp? then [Value(BitsAt(buf, pos, ops[0].len))] else [])
         + Pieces(buf, pos + ops[0].len, ops[1..])
  }

  /** Appends whole bytes, starting with byte `first`, until fewer than 8 of `len` bits are wanted. */
  method WholeBytes(buf: seq<byte>, first: nat, start: nat, len: nat, ghost pos: nat, ghost got: nat)
    returns (at: nat, value: nat, more: nat)
    requires pos + got == 8 * first && 8 * first + len <= 8 * |buf|
    requires start == Value(BitsAt(buf, pos, got))
    ensures more < 8 && more <= len && 8 * at == 8 * first + len - more
    ensures value == Value(BitsAt(buf, pos, got + len - more))
  {
    at, value, more := first, start, len;
    while more >= 8
      invariant more <= len && 8 * at == 8 * first + len - more
      invariant value == Value(BitsAt(buf, pos, got + len - more))
    {
      AppendBits(buf, pos, got + len - more, at, 8);
      value := Shl(value, 8) + buf[at];
      at := at + 1;
      more := more - 8;
    }
  }

  class BitPtr {
    var buf: seq<byte>
    var at: nat
    var cache: nat
    var left: nat

    /** `left == 0` is reachable by skipping; the cache matters only inside a byte. */
    ghost predicate Valid()
      reads this
    {
      && left <= 8
      && at <= |buf|
      && (left < 8 ==> at < |buf| && cache == buf[at])
    }

    ghost function Pos(): nat
      requires left <= 8
      reads this
    {
      8 * at + 8 - left
    }

    constructor (buffer: seq<byte>, start: nat)
      requires start <= |buffer|
      ensures Valid() && buf == buffer && Pos() == 8 * start && left == 8
    {
      buf, at, cache, left := buffer, start, 0, 8;
    }

    method Init(buffer: seq<byte>, start: nat)
      requires start <= |buffer|
      modifies this
      ensures Valid() && buf == buffer && Pos() == 8 * start && left == 8
    {
      buf, at, cache, left := buffer, start, 0, 8;
    }

    /** Structure assignment `*this = *from`. */
    method Assign(from: BitPtr)
      requires from.Valid()
      modifies this
      ensures Valid() && buf == from.buf && at == from.at && left == from.left && cache == from.cache
    {
      buf, at, cache, left := from.buf, from.at, from.cache, from.left;
    }

    /** Number of bits from here to `end`, as an unsigned 32-bit difference. */
    method Length(end: BitPtr) returns (n: nat)
      requires Valid() && end.Valid()
      ensures n == (end.Pos() - Pos()) % 0x1_0000_0000
    {
      n := (left + 8 * (end.at - (at + 1)) + (8 - end.left)) % 0x1_0000_0000;
    }

    /** The first byte of which no bit has been consumed. */
    method NextByte() returns (i: nat)
      requires Valid()
      ensures 8 * i - 8 < Pos() <= 8 * i && i <= |buf|
    {
      i := if left == 8 then at else at + 1;
    }

    method Skip(len: nat)
      requires Valid() && Pos() + len <= 8 * |buf|
      modifies this
      ensures Valid() && buf == old(buf) && Pos() == old(Pos()) + len
      ensures old(left) == 8 && len % 8 == 0 ==> left == 8
    {
      at := at + len / 8;
      left := UShort(left - len % 8);
      if left > 8 {
        at := at + 1;
        left := UShort(left + 8);
      }
      if left < 8 {
        cache := buf[at];
      }
    }

    /** Up to 32 bits, most significant first. A byte is fetched even when `len` is 0. */
    method Read(len: nat) returns (value: nat)
      requires Valid() && len <= 32 && Pos() + len <= 8 * |buf|
      requires left == 8 ==> at < |buf|
      modifies this
      ensures Valid() && buf == old(buf) && Pos() == old(Pos()) + len
      ensures value == Value(BitsAt(buf, old(Pos()), len))
    {
      if left == 8 {
        cache := buf[at];
      }
      if len < left {
        PartOfByte(buf, at, left, len);
        value := Shr(Low(cache, left), left - len);
        left := left - len;
      } else {
        value := ReadAcross(len);
      }
    }

    /** The case of `Read` that uses up the current byte, which is in the cache. */
    method ReadAcross(len: nat) returns (value: nat)
      requires Valid() && left <= len <= 32 && Pos() + len <= 8 * |buf|
      requires at < |buf| && cache == buf[at]
      modifies this
      ensures Valid() && buf == old(buf) && Pos() == old(Pos()) + len
      ensures value == Value(BitsAt(buf, old(Pos()), len))
    {
      // remaining bits in current byte
      PartOfByte(buf, at, left, left);
      value := Low(cache, left);
      ghost var pos := Pos();

      // more bytes
      var more;
      at, value, more := WholeBytes(buf, at + 1, value, len - left, pos, left);
      left := 8;
      if more > 0 {
        value := ReadLast(value, more, pos, len);
      }
    }

    /** The last bits wanted, from a byte that is not in the cache yet. */
    method ReadLast(start: nat, more: nat, ghost pos: nat, ghost len: nat) returns (value: nat)
      requires Valid() && left == 8 && 0 < more < 8 && more <= len && pos + len <= 8 * |buf|
      requires 8 * at == pos + len - more && start == Value(BitsAt(buf, pos, len - more))
      modifies this`cache, this`left
      ensures Valid() && Pos() == pos + len && value == Value(BitsAt(buf, pos, len))
    {
      cache := buf[at];
      AppendBits(buf, pos, len - more, at, more);
      value := Shl(start, more) + Shr(cache, 8 - more);
      left := left - more;
    }

    /** Any run of reads and skips returns consecutive pieces of the bit string. */
    method Run(ops: seq<Op>) returns (values: seq<nat>)
      requires Valid() && Within(ops, Pos(), 8 * |buf|)
      modifies this
      ensures Valid() && buf == old(buf) && Pos() == old(Pos()) + TotalLength(ops)
      ensures values == Pieces(buf, old(Pos()), ops)
      decreases |ops|
    {
      values := [];
      if ops != [] {
        match ops[0] {
          case ReadOp(len) =>
            var v := Read(len);
            values := [v];
          case SkipOp(len) =>
            Skip(len);
        }
        var rest := Run(ops[1..]);
        values := values + rest;
      }
    }
  }
}
