/**
 The frame header as the standard lays it out (section 2.4.2.3 of
 ISO/IEC 11172-3 and its extension to lower sampling frequencies), and what
 its codes stand for.
 */
module FrameLayout {
  import opened Wrappers
  import opened Octets
  import opened Arith
  import opened BitReader
  import opened Crc
  import opened FrameHeader

  // ----- rates -----

  function TwoTo(n: nat): nat {
    if n == 0 then 1 else 2 * TwoTo(n - 1)
  }

  /** Layer III: four steps to the octave, from 32 kbit/s. */
  function Octaves(i: nat): nat
    requires i > 0
  {
    8000 * (4 + (i - 1) % 4) * TwoTo((i - 1) / 4)
  }

  lemma OctavesAre(i: nat)
    requires 0 < i < 16
    ensures Octaves(i) == 8000 * (if i <= 4 then i + 3 else if i <= 8 then 2 * i - 2
                                  else if i <= 12 then 4 * i - 20 else 8 * i - 72)
  {
    assert TwoTo(0) == 1 && TwoTo(1) == 2 && TwoTo(2) == 4 && TwoTo(3) == 8;
  }

  /** Index 0 stands for free format; otherwise the rates go up in steps. */
  lemma BitrateFree(layer: nat, lsf: bool)
    requires 1 <= layer <= 3
    ensures Bitrate(0, layer, lsf) == 0
  {
  }

  lemma BitrateOne(i: nat)
    requires 0 < i < 15
    ensures Bitrate(i, 1, false) == 32000 * i
  {
  }

  /** Layer III. */
  lemma BitrateThree(i: nat)
    requires 0 < i < 15
    ensures Bitrate(i, 3, false) == Octaves(i)
  {
    OctavesAre(i);
  }

  /** Layer II leaves out a step. */
  lemma BitrateTwo(i: nat)
    requires 0 < i < 15
    ensures Bitrate(i, 2, false) == if i == 1 then Octaves(1) else Octaves(i + 1)
  {
    OctavesAre(i);
    OctavesAre(i + 1);
  }

  lemma BitrateLowOne(i: nat)
    requires 0 < i < 15
    ensures Bitrate(i, 1, true) == if i == 1 then 32000 else if i <= 4 then 32000 + 8000 * i
                                   else if i <= 12 then 16000 * i else 32000 * (i - 6)
  {
  }

  lemma BitrateLow(i: nat, layer: nat)
    requires 0 < i < 15 && 2 <= layer <= 3
    ensures Bitrate(i, layer, true) == if i <= 8 then 8000 * i else 16000 * (i - 4)
  {
  }

  /** Each extension halves the sampling rates. */
  lemma SamplerateHalves(i: nat)
    requires i < 3
    ensures Samplerate(i, false, false) == if i == 0 then 44100 else if i == 1 then 48000 else 32000
    ensures 2 * Samplerate(i, true, false) == Samplerate(i, false, false)
    ensures 2 * Samplerate(i, true, true) == Samplerate(i, true, false)
  {
  }

  // ----- frame length -----

  function Samples(h: Header): nat {
    if h.layer == 1 then 384 else if h.layer == 3 && h.lsf then 576 else 1152
  }

  /**
   A frame lasts for so many samples: without its padding it is the longest whole number of slots,
   of four bytes in Layer I and of one otherwise, that is sent in that time.
   */
  lemma LengthOfSamples(h: Header, bitrate: nat)
    requires h.samplerate > 0
    ensures var slot := if h.layer == 1 then 4 else 1;
            var bytes := FrameLength(h, bitrate) - if h.padding then slot else 0;
            && bytes >= 0 && bytes % slot == 0
            && (8 * bytes) * h.samplerate <= bitrate * Samples(h) < (8 * bytes + 8 * slot) * h.samplerate
  {
    var slots := if h.layer == 1 then 12 else SlotsPerFrame(h);
    var slot := if h.layer == 1 then 4 else 1;
    var q := Quot(bitrate * slots, h.samplerate);
    LengthInSlots(h, bitrate, slots, q);
    EightTimes(bitrate, slots, slot, Samples(h));
    WholeSlots(bitrate * slots, h.samplerate, 8 * slot);
    assert 8 * (slot * q) == 8 * slot * q;
  }

  lemma LengthInSlots(h: Header, bitrate: nat, slots: nat, q: nat)
    requires h.samplerate > 0 && slots == (if h.layer == 1 then 12 else SlotsPerFrame(h))
    requires q == Quot(bitrate * slots, h.samplerate)
    ensures h.layer == 1 ==> FrameLength(h, bitrate) == 4 * q + 4 * PadSlot(h)
    ensures h.layer != 1 ==> FrameLength(h, bitrate) == q + PadSlot(h)
  {
    TimesIsProduct(bitrate, slots);
  }

  lemma EightTimes(x: nat, y: nat, k: nat, z: nat)
    requires z == 8 * k * y && (k == 1 || k == 4)
    ensures 8 * k * (x * y) == x * z
  {
  }

  lemma WholeSlots(a: nat, sr: nat, k: nat)
    requires sr > 0 && k > 0
    ensures (k * Quot(a, sr)) * sr <= k * a < (k * Quot(a, sr) + k) * sr
  {
    var s := Quot(a, sr);
    QuotIsQuotient(a, sr);
    Remainder(a, sr, s);
    Regrouped(k, s, sr);
    Scaled(a, s * sr, sr, k);
  }

  lemma Remainder(a: nat, sr: nat, s: nat)
    requires sr > 0 && s == a / sr
    ensures s * sr <= a < s * sr + sr
  {
  }

  lemma Regrouped(k: nat, s: nat, sr: nat)
    ensures (k * s) * sr == k * (s * sr) && (k * s + k) * sr == k * (s * sr) + k * sr
  {
  }

  lemma Scaled(a: nat, low: nat, sr: nat, k: nat)
    requires k > 0 && low <= a < low + sr
    ensures k * low <= k * a < k * low + k * sr
  {
  }

  // ----- the four bytes -----

  /** The codes of a header that decodes. */
  datatype Codes = Codes(
    lsf: bool, mpeg25: bool, layer: nat, isProtected: bool, bitrateIndex: nat, rateIndex: nat, padding: bool,
    privateBit: bool, mode: nat, modeExtension: nat, copyright: bool, original: bool, emphasis: nat)

  function Bit(b: bool): nat { if b then 1 else 0 }

  predicate InRange(c: Codes) {
    c.layer <= 4 && c.bitrateIndex < 16 && c.rateIndex < 4 && c.mode < 4 && c.modeExtension < 4 && c.emphasis < 4
    && 1 <= c.layer
  }

  function FourBytes(c: Codes): seq<byte>
    requires InRange(c)
  {
    [255,
     224 + 16 * Bit(!c.mpeg25) + 8 * Bit(!c.lsf) + 2 * (4 - c.layer) + Bit(!c.isProtected),
     16 * c.bitrateIndex + 4 * c.rateIndex + 2 * Bit(c.padding) + Bit(c.privateBit),
     64 * (3 - c.mode) + 16 * c.modeExtension + 8 * Bit(c.copyright) + 4 * Bit(c.original) + c.emphasis]
  }

  lemma {:induction false} DigitsConcat(x: nat, m: nat, y: nat, k: nat)
    requires y < Shl(1, k)
    ensures Digits(Shl(x, k) + y, m + k) == Digits(x, m) + Digits(y, k)
  {
    if k == 0 {
      assert Digits(x, m) + [] == Digits(x, m);
    } else {
      DigitsConcat(x, m, y / 2, k - 1);
      assert (Shl(x, k) + y) / 2 == Shl(x, k - 1) + y / 2 && (Shl(x, k) + y) % 2 == y % 2;
    }
  }

  /** A number put into a byte between `from` higher bits and some lower ones is the field found there. */
  lemma FieldInByte(buf: seq<byte>, p: nat, i: nat, from: nat, n: nat, high: nat, v: nat, low: nat)
    requires p + i < |buf| && from + n <= 8 && v < Shl(1, n) && low < Shl(1, 8 - from - n)
    requires buf[p + i] == Shl(Shl(high, n) + v, 8 - from - n) + low
    ensures Field(buf, p, 8 * i + from, n) == v
  {
    var x, y, z := Digits(high, from), Digits(v, n), Digits(low, 8 - from - n);
    ThreeParts(high, from, v, n, low, 8 - from - n);
    MiddleOf(Digits(buf[p + i], 8), x, y, z);
    WithinByte(buf, p + i, from, n);
    FieldIs(buf, p, 8 * i + from, n, v);
  }

  lemma FieldIs(buf: seq<byte>, p: nat, at: nat, n: nat, v: nat)
    requires 8 * p + at + n <= 8 * |buf| && BitsAt(buf, 8 * p + at, n) == Digits(v, n) && v < Shl(1, n)
    ensures Field(buf, p, at, n) == v
  {
    DigitsValue(v, n);
    LowAll(v, n);
  }

  lemma ThreeParts(high: nat, from: nat, v: nat, n: nat, low: nat, k: nat)
    requires v < Shl(1, n) && low < Shl(1, k)
    ensures Digits(Shl(Shl(high, n) + v, k) + low, from + n + k) == Digits(high, from) + Digits(v, n) + Digits(low, k)
  {
    DigitsConcat(Shl(high, n) + v, from + n, low, k);
    DigitsConcat(high, from, v, n);
  }

  lemma MiddleOf(d: seq<bit>, x: seq<bit>, y: seq<bit>, z: seq<bit>)
    requires d == x + y + z
    ensures d[|x|..|x| + |y|] == y
  {
  }

  lemma {:induction false} ShlIs(x: nat, k: nat)
    ensures Shl(x, k) == x * TwoTo(k)
  {
    if k > 0 {
      ShlIs(x, k - 1);
      assert x * (2 * TwoTo(k - 1)) == 2 * (x * TwoTo(k - 1));
    }
  }

  /** The same in numbers: `w` and `u` are the powers of two for the field and for what is below it. */
  lemma FieldAt(buf: seq<byte>, p: nat, i: nat, from: nat, n: nat, w: nat, u: nat, high: nat, v: nat, low: nat)
    requires p + i < |buf| && from + n <= 8 && w == TwoTo(n) && u == TwoTo(8 - from - n)
    requires v < w && low < u && buf[p + i] == (high * w + v) * u + low
    ensures Field(buf, p, 8 * i + from, n) == v
  {
    ShlIs(1, n);
    ShlIs(1, 8 - from - n);
    ShlIs(high, n);
    ShlIs(Shl(high, n) + v, 8 - from - n);
    FieldInByte(buf, p, i, from, n, high, v, low);
  }

  /** The first half of a header comes back from its bytes. */
  lemma SecondByte(buf: seq<byte>, p: nat, c: Codes)
    requires p + 4 <= |buf| && InRange(c) && buf[p..p + 4] == FourBytes(c)
    ensures Field(buf, p, 11, 1) == Bit(!c.mpeg25) && Field(buf, p, 12, 1) == Bit(!c.lsf)
    ensures Field(buf, p, 13, 2) == 4 - c.layer && Field(buf, p, 15, 1) == Bit(!c.isProtected)
  {
    assert buf[p..p + 4][1] == buf[p + 1];
    var m, l, y, q := Bit(!c.mpeg25), Bit(!c.lsf), 4 - c.layer, Bit(!c.isProtected);
    assert buf[p + 1] == 224 + 16 * m + 8 * l + 2 * y + q;
    Extensions(buf, p, m, l, 2 * y + q);
    LayerAndProtection(buf, p, 14 * 2 + 2 * m + l, y, q);
  }

  lemma Extensions(buf: seq<byte>, p: nat, m: nat, l: nat, rest: nat)
    requires p + 1 < |buf| && m < 2 && l < 2 && rest < 8 && buf[p + 1] == 224 + 16 * m + 8 * l + rest
    ensures Field(buf, p, 11, 1) == m && Field(buf, p, 12, 1) == l
  {
    FieldAt(buf, p, 1, 3, 1, 2, 16, 7, m, 8 * l + rest);
    FieldAt(buf, p, 1, 4, 1, 2, 8, 14 + m, l, rest);
  }

  lemma LayerAndProtection(buf: seq<byte>, p: nat, high: nat, y: nat, q: nat)
    requires p + 1 < |buf| && y < 4 && q < 2 && buf[p + 1] == 8 * high + 2 * y + q
    ensures Field(buf, p, 13, 2) == y && Field(buf, p, 15, 1) == q
  {
    FieldAt(buf, p, 1, 5, 2, 4, 2, high, y, q);
    FieldAt(buf, p, 1, 7, 1, 2, 1, 4 * high + y, q, 0);
  }

  lemma ThirdByte(buf: seq<byte>, p: nat, c: Codes)
    requires p + 4 <= |buf| && InRange(c) && buf[p..p + 4] == FourBytes(c)
    ensures Field(buf, p, 16, 4) == c.bitrateIndex && Field(buf, p, 20, 2) == c.rateIndex
    ensures Field(buf, p, 22, 1) == Bit(c.padding) && Field(buf, p, 23, 1) == Bit(c.privateBit)
  {
    assert buf[p..p + 4][2] == buf[p + 2];
    var b, r, a, v := c.bitrateIndex, c.rateIndex, Bit(c.padding), Bit(c.privateBit);
    FieldAt(buf, p, 2, 0, 4, 16, 16, 0, b, 4 * r + 2 * a + v);
    FieldAt(buf, p, 2, 4, 2, 4, 4, b, r, 2 * a + v);
    FieldAt(buf, p, 2, 6, 1, 2, 2, 4 * b + r, a, v);
    FieldAt(buf, p, 2, 7, 1, 2, 1, 8 * b + 2 * r + a, v, 0);
  }

  lemma FourthByte(buf: seq<byte>, p: nat, c: Codes)
    requires p + 4 <= |buf| && InRange(c) && buf[p..p + 4] == FourBytes(c)
    ensures Field(buf, p, 24, 2) == 3 - c.mode && Field(buf, p, 26, 2) == c.modeExtension
    ensures Field(buf, p, 28, 1) == Bit(c.copyright) && Field(buf, p, 29, 1) == Bit(c.original)
    ensures Field(buf, p, 30, 2) == c.emphasis
  {
    assert buf[p..p + 4][3] == buf[p + 3];
    var m, x, y, o, e := 3 - c.mode, c.modeExtension, Bit(c.copyright), Bit(c.original), c.emphasis;
    Modes(buf, p, m, x, 8 * y + 4 * o + e);
    Notes(buf, p, 4 * m + x, y, o, e);
  }

  lemma Modes(buf: seq<byte>, p: nat, m: nat, x: nat, rest: nat)
    requires p + 3 < |buf| && m < 4 && x < 4 && rest < 16 && buf[p + 3] == 64 * m + 16 * x + rest
    ensures Field(buf, p, 24, 2) == m && Field(buf, p, 26, 2) == x
  {
    assert TwoTo(6) == 2 * TwoTo(5) == 4 * TwoTo(4);
    FieldAt(buf, p, 3, 0, 2, 4, 64, 0, m, 16 * x + rest);
    FieldAt(buf, p, 3, 2, 2, 4, 16, m, x, rest);
  }

  lemma Notes(buf: seq<byte>, p: nat, high: nat, y: nat, o: nat, e: nat)
    requires p + 3 < |buf| && y < 2 && o < 2 && e < 4 && buf[p + 3] == 16 * high + 8 * y + 4 * o + e
    ensures Field(buf, p, 28, 1) == y && Field(buf, p, 29, 1) == o && Field(buf, p, 30, 2) == e
  {
    FieldAt(buf, p, 3, 4, 1, 2, 8, high, y, 4 * o + e);
    FieldAt(buf, p, 3, 5, 1, 2, 4, 2 * high + y, o, e);
    FieldAt(buf, p, 3, 6, 2, 4, 1, 4 * high + 2 * y + o, e, 0);
  }

  /** The check word in the two bytes after a header. */
  lemma CheckBytes(buf: seq<byte>, p: nat)
    requires p + 6 <= |buf|
    ensures Field(buf, p, 32, 16) == 256 * (buf[p + 4] as nat) + buf[p + 5]
  {
    ReadsCompose(buf, 8 * p + 32, 8, 8);
    FieldOfByte(buf, p, 4);
    FieldOfByte(buf, p, 5);
    ShiftedByte(buf[p + 4]);
  }

  lemma ShiftedByte(x: nat)
    ensures Shl(x, 8) == 256 * x
  {
    ShlIs(x, 8);
    assert TwoTo(8) == 256;
  }

  lemma FieldOfByte(buf: seq<byte>, p: nat, i: nat)
    requires p + i < |buf|
    ensures Value(BitsAt(buf, 8 * p + 8 * i, 8)) == buf[p + i]
  {
    WithinByte(buf, p + i, 0, 8);
    assert 8 * p + 8 * i == 8 * (p + i) + 0;
    assert Digits(buf[p + i], 8)[0..8] == Digits(buf[p + i], 8);
    DigitsValue(buf[p + i], 8);
    assert Shl(1, 8) == 256;
    LowAll(buf[p + i], 8);
  }

  /** What four bytes with these codes, and the check word after them if there is one, decode to. */
  lemma HeaderWritten(buf: seq<byte>, p: nat, c: Codes)
    requires p + BUFFER_GUARD <= |buf| && InRange(c) && buf[p..p + 4] == FourBytes(c)
    ensures HeaderAt(buf, p)
         == if !c.lsf && c.mpeg25 then Err(LostSync)
            else if c.layer == 4 then Err(BadLayer)
            else if c.bitrateIndex == 15 then Err(BadBitrate)
            else if c.rateIndex == 3 then Err(BadSamplerate)
            else Ok(Header(c.layer, c.lsf, c.mpeg25,
                           if c.isProtected then
                             Check(CrcOf(0xffff, BitsAt(buf, 8 * p + 16, 16)), 256 * (buf[p + 4] as nat) + buf[p + 5])
                           else NoCheck,
                           Bitrate(c.bitrateIndex, c.layer, c.lsf), Samplerate(c.rateIndex, c.lsf, c.mpeg25),
                           c.padding, c.privateBit, c.mode, c.modeExtension, c.copyright, c.original, c.emphasis))
  {
    SecondByte(buf, p, c);
    ThirdByte(buf, p, c);
    FourthByte(buf, p, c);
    CheckBytes(buf, p);
    var f := Fields(buf, p);
    assert f(11, 1) == Bit(!c.mpeg25) && f(12, 1) == Bit(!c.lsf) && f(13, 2) == 4 - c.layer;
    assert f(15, 1) == Bit(!c.isProtected) && f(16, 4) == c.bitrateIndex && f(20, 2) == c.rateIndex;
    assert f(32, 16) == 256 * (buf[p + 4] as nat) + buf[p + 5];
  }
}
