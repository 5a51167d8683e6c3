/**
 The MPEG audio frame header: where its fields sit, what frame length they
 imply, and how the rate of a free-format stream is worked out from the
 distance to the next header.
 */
module FrameHeader {
  import opened Wrappers
  import opened Octets
  import opened Arith
  import opened BitReader
  import opened Crc

  /** Bytes that must follow a header before it is looked at. */
  const BUFFER_GUARD: nat := 8

  datatype Error = LostSync | BadLayer | BadBitrate | BadSamplerate | BufLen | BufPtr {
    /** `MAD_RECOVERABLE`: the caller may simply try again. */
    predicate Recoverable() { this != BufLen && this != BufPtr }
  }

  datatype Result<T> = Ok(value: T) | Err(error: Error)

  datatype CheckWord = NoCheck | Check(computed: bv16, target: nat)

  datatype Header = Header(
    layer: nat,
    lsf: bool,              // lower sampling frequency extension
    mpeg25: bool,
    check: CheckWord,
    bitrate: nat,           // bits per second; 0 means free format
    samplerate: nat,
    padding: bool,
    privateBit: bool,
    mode: int,
    modeExtension: nat,
    copyright: bool,
    original: bool,
    emphasis: nat)

  /** The 11-bit sync word starts at byte `p`. */
  predicate SyncAt(buf: seq<byte>, p: nat) {
    p + 1 < |buf| && buf[p] == 0xff && buf[p + 1] >= 0xe0
  }

  /** The value of `n` bits, `at` bits into the header that starts at byte `p`. */
  function Field(buf: seq<byte>, p: nat, at: nat, n: nat): (r: nat)
    requires 8 * p + at + n <= 8 * |buf|
    ensures r < Shl(1, n)
  {
    ValueBound(BitsAt(buf, 8 * p + at, n));
    Value(BitsAt(buf, 8 * p + at, n))
  }

  function BitrateTable(row: nat, index: nat): nat
    requires row < 5 && index < 15
  {
    [[0, 32000, 64000, 96000, 128000, 160000, 192000, 224000, 256000, 288000, 320000, 352000, 384000, 416000, 448000],
     [0, 32000, 48000, 56000, 64000, 80000, 96000, 112000, 128000, 160000, 192000, 224000, 256000, 320000, 384000],
     [0, 32000, 40000, 48000, 56000, 64000, 80000, 96000, 112000, 128000, 160000, 192000, 224000, 256000, 320000],
     [0, 32000, 48000, 56000, 64000, 80000, 96000, 112000, 128000, 144000, 160000, 176000, 192000, 224000, 256000],
     [0, 8000, 16000, 24000, 32000, 40000, 48000, 56000, 64000, 80000, 96000, 112000, 128000, 144000, 160000]
    ][row][index]
  }

  function Samplerate(index: nat, lsf: bool, mpeg25: bool): nat
    requires index < 3
  {
    var base := [44100, 48000, 32000][index];
    if !lsf then base else if mpeg25 then base / 2 / 2 else base / 2
  }

  function Bitrate(index: nat, layer: nat, lsf: bool): nat
    requires index < 15 && 1 <= layer <= 3
  {
    if lsf then BitrateTable(3 + layer / 2, index) else BitrateTable(layer - 1, index)
  }

  /** Interprets a header given by its bit fields: `field(at, n)` is the `n`-bit number `at` bits into it. */
  function Interpret(field: (nat, nat) -> nat, computed: bv16): Result<Header> {
    var mpeg25, lsf := field(11, 1) == 0, field(12, 1) == 0;
    var code, bitrateIndex, rateIndex := field(13, 2), field(16, 4), field(20, 2);
    if !lsf && mpeg25 then Err(LostSync)
    else if !(1 <= code <= 3) then Err(BadLayer)
    else if bitrateIndex >= 15 then Err(BadBitrate)
    else if rateIndex >= 3 then Err(BadSamplerate)
    else Ok(Header(4 - code, lsf, mpeg25,
                   if field(15, 1) == 0 then Check(computed, field(32, 16)) else NoCheck,
                   Bitrate(bitrateIndex, 4 - code, lsf), Samplerate(rateIndex, lsf, mpeg25),
                   field(22, 1) != 0, field(23, 1) != 0, 3 - field(24, 2), field(26, 2),
                   field(28, 1) != 0, field(29, 1) != 0, field(30, 2)))
  }

  /** A header put together from its parts. */
  lemma Assembled(field: (nat, nat) -> nat, crc: bv16, h: Header)
    requires !(field(12, 1) != 0 && field(11, 1) == 0) && 1 <= field(13, 2) <= 3 && field(16, 4) < 15
             && field(20, 2) < 3
    requires h.layer == 4 - field(13, 2) && h.lsf == (field(12, 1) == 0) && h.mpeg25 == (field(11, 1) == 0)
    requires h.check == if field(15, 1) == 0 then Check(crc, field(32, 16)) else NoCheck
    requires h.bitrate == Bitrate(field(16, 4), h.layer, h.lsf)
             && h.samplerate == Samplerate(field(20, 2), h.lsf, h.mpeg25)
    requires h.padding == (field(22, 1) != 0) && h.privateBit == (field(23, 1) != 0)
    requires h.mode == 3 - field(24, 2) && h.modeExtension == field(26, 2)
    requires h.copyright == (field(28, 1) != 0) && h.original == (field(29, 1) != 0) && h.emphasis == field(30, 2)
    ensures Interpret(field, crc) == Ok(h)
  {
  }

  /** The bit fields of the header at byte `p`. */
  function Fields(buf: seq<byte>, p: nat): (nat, nat) -> nat {
    (at: nat, n: nat) => if 8 * p + at + n <= 8 * |buf| then Field(buf, p, at, n) else 0
  }

  /** The header at byte `p`. */
  function HeaderAt(buf: seq<byte>, p: nat): Result<Header>
    requires p + BUFFER_GUARD <= |buf|
  {
    Interpret(Fields(buf, p), CrcOf(0xffff, BitsAt(buf, 8 * p + 16, 16)))
  }

  /** Slots per frame for Layers II and III. */
  function SlotsPerFrame(h: Header): (r: nat)
    ensures r == 72 || r == 144
  {
    if h.layer == 3 && h.lsf then 72 else 144
  }

  function PadSlot(h: Header): nat {
    if h.padding then 1 else 0
  }

  /** Length in bytes of a frame with header `h` sent at `bitrate` bits per second. */
  function FrameLength(h: Header, bitrate: nat): nat
    requires h.samplerate > 0
  {
    if h.layer == 1 then (Quot(12 * bitrate, h.samplerate) + PadSlot(h)) * 4
    else Quot(Times(bitrate, SlotsPerFrame(h)), h.samplerate) + PadSlot(h)
  }

  /** The rate in kbit/s that a distance of `n` bytes to the next header suggests. */
  function RateFromDistance(h: Header, n: nat): nat
    requires n >= 4
  {
    if h.layer == 1 then Times(h.samplerate, n - 4 * PadSlot(h) + 4) / 48 / 1000
    else Quot(Times(h.samplerate, n - PadSlot(h) + 1), SlotsPerFrame(h)) / 1000
  }

  ghost predicate Plausible(h: Header) {
    && 1 <= h.layer <= 3
    && h.samplerate in {44100, 48000, 32000, 22050, 24000, 16000, 11025, 12000, 8000}
    && (h.lsf <==> h.samplerate <= 24000)
    && (h.bitrate == 0 || 8000 <= h.bitrate <= 448000)
    && (h.bitrate != 0 && h.layer == 1 ==> h.bitrate >= 32000)
  }

  /** Every header that decodes has a known layer, a usable sampling rate and a tabulated bitrate. */
  lemma InterpretPlausible(field: (nat, nat) -> nat, computed: bv16)
    requires Interpret(field, computed).Ok?
    ensures Plausible(Interpret(field, computed).value)
  {
  }

  /** No frame is shorter than the guard, whatever rate of at least 8 kbit/s is in force. */
  lemma FrameLengthAtLeastGuard(h: Header, bitrate: nat)
    requires Plausible(h) && bitrate >= 8000
    ensures FrameLength(h, bitrate) >= BUFFER_GUARD
  {
    TimesIsProduct(bitrate, SlotsPerFrame(h));
    QuotAtLeast(12 * bitrate, h.samplerate, 2);
    QuotAtLeast(bitrate * SlotsPerFrame(h), h.samplerate, 8);
  }

  /** Rounding up to the next slot and dividing back loses less than one kbit/s. */
  lemma RecoverRate(sr: nat, slots: nat, k: nat)
    requires sr > 0 && slots > 0 && 2 * sr <= 1000 * slots
    ensures sr * (slots * (1000 * k) / sr + 1) / slots / 1000 == k
  {
    var a := slots * (1000 * k);
    var s := a / sr;
    assert s * sr <= a < s * sr + sr;
    var x := sr * (s + 1);
    assert x == s * sr + sr;
    assert a < x <= a + sr;
    assert (1000 * k) * slots == a && (1000 * k + 1000) * slots == a + 1000 * slots;
    DivBetween(x, slots, 1000 * k, 1000 * k + 1000);
  }

  /** Layers II and III: from the true frame length at `k` kbit/s, exactly `k` is found again. */
  lemma FreeRateExact(h: Header, k: nat)
    requires h.layer == 2 || h.layer == 3
    requires 0 < h.samplerate <= 48000 && (h.lsf ==> h.samplerate <= 24000)
    requires FrameLength(h, 1000 * k) >= 4
    ensures RateFromDistance(h, FrameLength(h, 1000 * k)) == k
  {
    var sr, slots := h.samplerate, SlotsPerFrame(h);
    TimesIsProduct(1000 * k, slots);
    QuotIsQuotient(1000 * k * slots, sr);
    var s := slots * (1000 * k) / sr;
    TimesIsProduct(sr, s + 1);
    QuotIsQuotient(sr * (s + 1), slots);
    RecoverRate(sr, slots, k);
  }

  /** Layer I: the slot is four bytes wide, and the rate is found again only near the top of a slot. */
  lemma LayerOneRateExactIff(h: Header, k: nat)
    requires h.layer == 1 && h.samplerate > 0
    requires FrameLength(h, 1000 * k) >= 4
    ensures RateFromDistance(h, FrameLength(h, 1000 * k)) == k <==> 12000 * k % h.samplerate + 12000 > h.samplerate
  {
    var sr := h.samplerate;
    var a := 12 * (1000 * k);
    var s := a / sr;
    QuotIsQuotient(a, sr);
    TimesIsProduct(sr, 4 * (s + 1));
    assert a == s * sr + a % sr;
    var n := FrameLength(h, 1000 * k);
    assert n - 4 * PadSlot(h) + 4 == 4 * (s + 1);
    var x := sr * (4 * (s + 1));
    assert x == 4 * (s * sr) + 4 * sr == 4 * (a - a % sr + sr);
    assert RateFromDistance(h, n) == x / 48 / 1000 == x / 48000;
    assert x > 4 * a == 48000 * k;
  }

  /** At 48 kHz a Layer I stream of 8 kbit/s is taken for one of 12, with frames half as long again. */
  lemma LayerOneRateLost(h: Header)
    requires h.layer == 1 && h.samplerate == 48000 && !h.padding
    ensures FrameLength(h, 8000) == 8 && RateFromDistance(h, 8) == 12 && FrameLength(h, 12000) == 12
  {
    QuotIsQuotient(12 * 8000, 48000);
    QuotIsQuotient(12 * 12000, 48000);
    TimesIsProduct(48000, 12);
  }
}
