/**
 Finding frames in a buffer: the header decoder, the sync word scan, the
 search for a free-format rate and the resynchronising loop of libmad.
 */
module FrameSync {
  import opened Wrappers
  import opened Octets
  import opened BitReader
  import opened Crc
  import opened FrameHeader

  /** First byte after the header and check word at `p`. */
  function AfterHeader(p: nat, h: Header): nat {
    p + if h.check.NoCheck? then 4 else 6
  }

  /** What the header decoder makes of each byte. */
  type Heads = nat -> Result<Header>

  /** The decoder's view of a buffer; see `Shows`. */
  function HeadsOf(buf: seq<byte>): Heads {
    (p: nat) => if p + BUFFER_GUARD <= |buf| then HeaderAt(buf, p) else Err(BufLen)
  }

  /** `heads` is the decoder's view of `buf`. */
  ghost predicate Shows(heads: Heads, buf: seq<byte>) {
    && (forall p: nat {:trigger HeaderAt(buf, p)} | p + BUFFER_GUARD <= |buf| :: HeaderAt(buf, p) == heads(p))
    && (forall p: nat {:trigger heads(p)} :: heads(p).Ok? ==> Plausible(heads(p).value))
  }

  lemma HeadsOfShows(buf: seq<byte>)
    ensures Shows(HeadsOf(buf), buf)
  {
    forall p: nat | HeadsOf(buf)(p).Ok?
      ensures Plausible(HeadsOf(buf)(p).value)
    {
      InterpretPlausible(Fields(buf, p), CrcOf(0xffff, BitsAt(buf, 8 * p + 16, 16)));
    }
  }

  /** The rate in kbit/s suggested by a header `r` found `n` bytes on, if it is like `h` and far enough away. */
  function Suggested(r: Result<Header>, h: Header, n: int): (c: Option<nat>)
    ensures c.Some? ==> c.value >= 8
  {
    if n >= 4 && r.Ok? && r.value.layer == h.layer && r.value.samplerate == h.samplerate && RateFromDistance(h, n) >= 8
    then Some(RateFromDistance(h, n))
    else None
  }

  function CandidateAt(heads: Heads, frame: nat, h: Header, q: nat): Option<nat> {
    Suggested(heads(q), h, q - frame)
  }

  function Candidates(heads: Heads, frame: nat, h: Header): nat -> Option<nat> {
    (q: nat) => CandidateAt(heads, frame, h, q)
  }

  /** The rate suggested by the first sync word at or after `q` that has a candidate. */
  function FirstCandidate(buf: seq<byte>, candidate: nat -> Option<nat>, q: nat): Option<nat>
    decreases |buf| - q
  {
    if q + BUFFER_GUARD > |buf| then None
    else if SyncAt(buf, q) && candidate(q).Some? then candidate(q)
    else FirstCandidate(buf, candidate, q + 1)
  }

  /** Bytes without a sync word do not matter to the search. */
  lemma {:induction false} FirstCandidateFrom(buf: seq<byte>, candidate: nat -> Option<nat>, from: nat, q: nat)
    requires from <= q
    requires forall k: nat | from <= k < q :: k + BUFFER_GUARD <= |buf| ==> !SyncAt(buf, k)
    ensures FirstCandidate(buf, candidate, from) == FirstCandidate(buf, candidate, q)
    decreases q - from
  {
    if from < q {
      FirstCandidateFrom(buf, candidate, from + 1, q);
    }
  }

  /** The rate in kbit/s found for a free-format frame; a Layer III rate above 640 is not believed. */
  function FreeRate(buf: seq<byte>, heads: Heads, frame: nat, h: Header): Option<nat> {
    match FirstCandidate(buf, Candidates(heads, frame, h), AfterHeader(frame, h))
    case None => None
    case Some(rate) => if h.layer == 3 && rate > 640 then None else Some(rate)
  }

  /** The bitrate of the frame at `p` as found without any earlier knowledge. */
  function FrameBitrate(buf: seq<byte>, heads: Heads, p: nat, h: Header): Option<nat> {
    if h.bitrate != 0 then Some(h.bitrate)
    else match FreeRate(buf, heads, p, h)
      case None => None
      case Some(rate) => Some(rate * 1000)
  }

  /** A rate remembered from an earlier frame can be used for header `h`. */
  predicate Believed(h: Header, was: nat) {
    was != 0 && (h.layer == 3 ==> was <= 640000)
  }

  /** The bitrate of the frame at `p` with header `h`, where `was` is remembered from earlier frames. */
  function RateFor(buf: seq<byte>, heads: Heads, p: nat, h: Header, synced: bool, was: nat): Option<nat> {
    if h.bitrate == 0 && synced && Believed(h, was) then Some(was) else FrameBitrate(buf, heads, p, h)
  }

  /** What a call leaves behind: its result, where the next one starts, and the rate remembered. */
  datatype Outcome = Outcome(r: Result<Header>, next: nat, freerate: nat)

  /**
   The outcome when a frame is expected at `p` and the rate remembered is `was`: the
   frame is there and fits with its guard, or it is cut off by the end of the buffer,
   or sync is lost because the sync word, a sound header or a rate is missing.
   */
  function Expected(buf: seq<byte>, heads: Heads, p: nat, was: nat): Outcome {
    if p + BUFFER_GUARD > |buf| then Outcome(Err(BufLen), p, was)
    else if !SyncAt(buf, p) then Outcome(Err(LostSync), p + 1, was)
    else match heads(p)
      case Err(e) => Outcome(Err(e), p + 1, was)
      case Ok(h) =>
        match RateFor(buf, heads, p, h, true, was)
        case None => Outcome(Err(LostSync), p + 1, was)
        case Some(bitrate) =>
          var n := if h.samplerate > 0 then FrameLength(h, bitrate) else 0;
          var now := if h.bitrate == 0 then bitrate else was;
          if p + n + BUFFER_GUARD > |buf| then Outcome(Err(BufLen), p, now)
          else Outcome(Ok(h.(bitrate := bitrate)), p + n, now)
  }

  /**
   In numbers: with a sync word and a sound header in place, a frame whose header gives its
   rate is decoded exactly if it fits; so is a free-format frame at the rate remembered, if
   that is usable; otherwise the rate must be found ahead.
   */
  lemma ExpectedFrame(buf: seq<byte>, heads: Heads, p: nat, own: Header, was: nat)
    requires p + BUFFER_GUARD <= |buf| && SyncAt(buf, p) && heads(p) == Ok(own) && own.samplerate > 0
    ensures var o := Expected(buf, heads, p, was);
            && (own.bitrate != 0 ==> o == At(buf, p, own, own.bitrate, was))
            && (own.bitrate == 0 && was != 0 && (own.layer != 3 || was <= 640000) ==> o == At(buf, p, own, was, was))
            && (own.bitrate == 0 && (was == 0 || (own.layer == 3 && was > 640000)) ==>
                match FreeRate(buf, heads, p, own)
                case None => o == Outcome(Err(LostSync), p + 1, was)
                case Some(k) => o == At(buf, p, own, 1000 * k, 1000 * k))
  {
  }

  /** A header with its rate, which is the one remembered if it gives none. */
  function Filled(own: Header, remembered: nat): Header {
    own.(bitrate := if own.bitrate == 0 then remembered else own.bitrate)
  }

  /** A whole frame with header `own` from `p` to `next`; in free format it is sent at the rate remembered. */
  predicate FrameTo(buf: seq<byte>, heads: Heads, p: nat, own: Header, next: nat, remembered: nat) {
    && p + BUFFER_GUARD <= |buf| && next + BUFFER_GUARD <= |buf| && SyncAt(buf, p) && heads(p) == Ok(own)
    && own.samplerate > 0
    && (own.bitrate == 0 ==> remembered != 0 && (own.layer == 3 ==> remembered <= 640000))
    && next == p + FrameLength(own, Filled(own, remembered).bitrate)
  }

  /** The frames at `starts`, with headers `owns`, follow one another. */
  ghost predicate CleanStream(buf: seq<byte>, heads: Heads, starts: seq<nat>, owns: seq<Header>, remembered: nat) {
    |starts| == |owns| + 1
    && forall i | 0 <= i < |owns| :: FrameTo(buf, heads, starts[i], owns[i], starts[i + 1], remembered)
  }

  /** `expected` gives the outcome expected at each place. */
  ghost predicate Foresees(expected: nat -> Outcome, buf: seq<byte>, heads: Heads, remembered: nat) {
    forall p: nat {:trigger Expected(buf, heads, p, remembered)} :: Expected(buf, heads, p, remembered) == expected(p)
  }

  lemma StreamExpected(buf: seq<byte>, heads: Heads, starts: seq<nat>, owns: seq<Header>, remembered: nat)
    returns (expected: nat -> Outcome, hs: seq<Header>)
    requires CleanStream(buf, heads, starts, owns, remembered)
    ensures Foresees(expected, buf, heads, remembered)
    ensures |hs| == |owns| && forall i | 0 <= i < |hs| :: hs[i] == Filled(owns[i], remembered)
    ensures forall i | 0 <= i < |hs| :: expected(starts[i]) == Outcome(Ok(hs[i]), starts[i + 1], remembered)
  {
    expected := (p: nat) => Expected(buf, heads, p, remembered);
    hs := seq(|owns|, i requires 0 <= i < |owns| => Filled(owns[i], remembered));
    forall i | 0 <= i < |hs|
      ensures expected(starts[i]) == Outcome(Ok(hs[i]), starts[i + 1], remembered)
    {
      ExpectedNext(buf, heads, starts[i], owns[i], starts[i + 1], remembered);
    }
  }

  lemma ExpectedNext(buf: seq<byte>, heads: Heads, p: nat, own: Header, next: nat, remembered: nat)
    requires FrameTo(buf, heads, p, own, next, remembered)
    ensures Expected(buf, heads, p, remembered) == Outcome(Ok(Filled(own, remembered)), next, remembered)
  {
    ExpectedFrame(buf, heads, p, own, remembered);
  }

  /** What is expected once the header `h` with its rate and the length `n` are worked out. */
  lemma ExpectedFound(buf: seq<byte>, heads: Heads, p: nat, was: nat, h: Header, n: nat, now: nat)
    requires p + BUFFER_GUARD <= |buf| && SyncAt(buf, p) && IsHeader(heads, p, h, n)
    requires RateFor(buf, heads, p, heads(p).value, true, was) == Some(h.bitrate)
    requires now == if heads(p).value.bitrate == 0 then h.bitrate else was
    ensures Expected(buf, heads, p, was)
         == if p + n + BUFFER_GUARD > |buf| then Outcome(Err(BufLen), p, now) else Outcome(Ok(h), p + n, now)
  {
  }

  /** A frame at `p` sent at `bitrate`: decoded if it fits with its guard, otherwise left for the next buffer. */
  function At(buf: seq<byte>, p: nat, own: Header, bitrate: nat, remembered: nat): Outcome
    requires own.samplerate > 0
  {
    if p + FrameLength(own, bitrate) + BUFFER_GUARD > |buf| then Outcome(Err(BufLen), p, remembered)
    else Outcome(Ok(own.(bitrate := bitrate)), p + FrameLength(own, bitrate), remembered)
  }

  /** What becomes of a sync word when the decoder has no earlier knowledge to go by. */
  datatype Verdict =
    | Rejected(error: Error)    // no header there, or no rate can be found for it
    | TooLong                   // the frame does not end inside the buffer
    | Dismissed                 // no sync word follows the frame
    | Confirmed(length: nat)    // one does

  function Judge(buf: seq<byte>, heads: Heads, p: nat): Verdict
    requires p <= |buf|
  {
    match heads(p)
    case Err(e) => Rejected(e)
    case Ok(h) =>
      match FrameBitrate(buf, heads, p, h)
      case None => Rejected(LostSync)
      case Some(bitrate) =>
        var n := if h.samplerate > 0 then FrameLength(h, bitrate) else 0;
        if n + BUFFER_GUARD > |buf| - p then TooLong
        else if SyncAt(buf, p + n) then Confirmed(n)
        else Dismissed
  }

  type Verdicts = nat -> Verdict

  function VerdictsOf(buf: seq<byte>, heads: Heads): Verdicts {
    (p: nat) => if p <= |buf| then Judge(buf, heads, p) else TooLong
  }

  ghost predicate Judges(verdicts: Verdicts, buf: seq<byte>, heads: Heads) {
    forall p: nat {:trigger Judge(buf, heads, p)} | p <= |buf| :: Judge(buf, heads, p) == verdicts(p)
  }

  lemma VerdictsOfJudges(buf: seq<byte>, heads: Heads)
    ensures Judges(VerdictsOf(buf, heads), buf, heads)
  {
  }

  /** Byte `q` is no place to start a frame: no sync word, or none follows its frame. */
  predicate PassedOver(buf: seq<byte>, verdicts: Verdicts, q: nat) {
    q + BUFFER_GUARD <= |buf| ==> SyncAt(buf, q) ==> verdicts(q) == Dismissed
  }

  /** The search stops at the first sync word that has a candidate. */
  lemma {:induction false} FirstCandidateAt(buf: seq<byte>, candidate: nat -> Option<nat>, from: nat, q: nat)
    requires from <= q && q + BUFFER_GUARD <= |buf| && SyncAt(buf, q) && candidate(q).Some?
    requires forall k: nat | from <= k < q && SyncAt(buf, k) :: candidate(k) == None
    ensures FirstCandidate(buf, candidate, from) == candidate(q)
    decreases q - from
  {
    if from < q {
      FirstCandidateAt(buf, candidate, from + 1, q);
    }
  }

  /**
   A free-format stream of Layer II or III sent at `k` kbit/s: if the next
   header really is one frame length away, and nothing before it looks like a
   header, the rate found is `k` and the frame length computed from it is the
   true one.
   */
  lemma FreeFormatRecovered(buf: seq<byte>, heads: Heads, p: nat, h: Header, k: nat, q: nat)
    requires heads(p) == Ok(h) && Plausible(h) && h.layer != 1 && h.bitrate == 0
    requires 8 <= k && (h.layer == 3 ==> k <= 640)
    requires q == p + FrameLength(h, 1000 * k) && q + BUFFER_GUARD <= |buf| && SyncAt(buf, q)
    requires heads(q).Ok? && heads(q).value.layer == h.layer && heads(q).value.samplerate == h.samplerate
    requires forall j: nat | p + (if h.check.NoCheck? then 4 else 6) <= j < q && SyncAt(buf, j) ::
               heads(j).Err? || heads(j).value.layer != h.layer || heads(j).value.samplerate != h.samplerate
               || RateFromDistance(h, j - p) < 8
    ensures FreeRate(buf, heads, p, h) == Some(k)
    ensures Judge(buf, heads, p) == Confirmed(q - p)
  {
    FrameLengthAtLeastGuard(h, 1000 * k);
    FreeRateExact(h, k);
    FirstCandidateAt(buf, Candidates(heads, p, h), AfterHeader(p, h), q);
  }

  /** Byte `q` is the first place from `from` on where a sync word and its guard fit. */
  predicate FirstSync(buf: seq<byte>, from: nat, q: nat) {
    && from <= q && q + BUFFER_GUARD <= |buf| && SyncAt(buf, q)
    && forall k | from <= k < q :: !SyncAt(buf, k)
  }

  /** `h` is the header at `p`, its rate filled in, and `n` the length of its frame. */
  ghost predicate IsHeader(heads: Heads, p: nat, h: Header, n: nat) {
    heads(p).Ok? && h == heads(p).value.(bitrate := h.bitrate) && h.samplerate > 0 && n == FrameLength(h, h.bitrate)
  }

  /** `field` gives the bit fields of the header at `p`. */
  ghost predicate Layout(field: (nat, nat) -> nat, buf: seq<byte>, p: nat) {
    forall at: nat, n: nat {:trigger Field(buf, p, at, n)} | 8 * p + at + n <= 8 * |buf| ::
      Field(buf, p, at, n) == field(at, n)
  }

  /** Reads the `n`-bit number `at` bits into the header. */
  method Number(ptr: BitPtr, n: nat, ghost buf: seq<byte>, ghost p: nat, ghost at: nat, ghost field: (nat, nat) -> nat)
    returns (v: nat)
    requires ptr.Valid() && ptr.buf == buf && ptr.Pos() == 8 * p + at
    requires 0 < n <= 16 && 8 * p + at + n <= 8 * |buf| && Layout(field, buf, p)
    modifies ptr
    ensures ptr.Valid() && ptr.buf == buf && ptr.Pos() == 8 * p + (at + n)
    ensures v == field(at, n) < Shl(1, n)
  {
    v := ptr.Read(n);
    assert v == Field(buf, p, at, n);
  }

  /** Reads a header, and the check word if there is one, at a byte boundary. */
  method DecodeFields(ptr: BitPtr, ghost buf: seq<byte>, ghost p: nat, ghost field: (nat, nat) -> nat, ghost crc: bv16)
    returns (r: Result<Header>)
    requires ptr.Valid() && ptr.buf == buf && ptr.Pos() == 8 * p + 0 && p + BUFFER_GUARD <= |buf|
             && Layout(field, buf, p)
    requires crc == CrcOf(0xffff, BitsAt(buf, 8 * p + 16, 16))
    modifies ptr
    ensures ptr.Valid() && ptr.buf == buf
    ensures r == Interpret(field, crc)
    ensures r.Ok? ==> ptr.Pos() == 8 * AfterHeader(p, r.value)
  {
    ptr.Skip(11);
    var bit11 := Number(ptr, 1, buf, p, 11, field);
    var bit12 := Number(ptr, 1, buf, p, 12, field);
    if bit12 != 0 && bit11 == 0 {
      return Err(LostSync);
    }
    var code := Number(ptr, 2, buf, p, 13, field);
    if code == 0 {
      return Err(BadLayer);
    }
    var check := DecodeProtection(ptr, buf, p, field, crc);
    assert Shl(1, 2) == 4;
    r := DecodeRates(ptr, 4 - code, bit12 == 0, bit11 == 0, check, buf, p, field);
    if r.Ok? {
      var h := DecodeFlags(ptr, r.value, buf, p, field);
      h := DecodeTail(ptr, h, buf, p, field);
      Assembled(field, crc, h);
      r := Ok(h);
    }
  }

  /** The protection bit; if it is clear, the CRC of the rest of the header is started. */
  method DecodeProtection(ptr: BitPtr, ghost buf: seq<byte>, ghost p: nat, ghost field: (nat, nat) -> nat,
    ghost crc: bv16) returns (check: CheckWord)
    requires ptr.Valid() && ptr.buf == buf && ptr.Pos() == 8 * p + 15 && p + BUFFER_GUARD <= |buf|
             && Layout(field, buf, p)
    requires crc == CrcOf(0xffff, BitsAt(buf, 8 * p + 16, 16))
    modifies ptr
    ensures ptr.Valid() && ptr.buf == buf && ptr.Pos() == 8 * p + 16
    ensures check == if field(15, 1) == 0 then Check(crc, 0) else NoCheck
  {
    var bit15 := Number(ptr, 1, buf, p, 15, field);
    check := NoCheck;
    if bit15 == 0 {
      var computed := MadBitCrc(ptr, 16, 0xffff);
      check := Check(computed, 0);
    }
  }

  method DecodeRates(ptr: BitPtr, layer: nat, lsf: bool, mpeg25: bool, check: CheckWord,
                     ghost buf: seq<byte>, ghost p: nat, ghost field: (nat, nat) -> nat) returns (r: Result<Header>)
    requires 1 <= layer <= 3
    requires ptr.Valid() && ptr.buf == buf && ptr.Pos() == 8 * p + 16 && p + BUFFER_GUARD <= |buf|
             && Layout(field, buf, p)
    modifies ptr
    ensures ptr.Valid() && ptr.buf == buf
    ensures ptr.Valid() && ptr.buf == buf && (r.Ok? ==> ptr.Pos() == 8 * p + 22)
    ensures r == if field(16, 4) >= 15 then Err(BadBitrate)
                 else if field(20, 2) >= 3 then Err(BadSamplerate)
                 else Ok(Header(layer, lsf, mpeg25, check, Bitrate(field(16, 4), layer, lsf),
                   Samplerate(field(20, 2), lsf, mpeg25),
                                false, false, 0, 0, false, false, 0))
  {
    var index := Number(ptr, 4, buf, p, 16, field);
    assert Shl(1, 2) == 4 && Shl(1, 4) == 16;
    if index == 15 {
      return Err(BadBitrate);
    }
    var rate := Number(ptr, 2, buf, p, 20, field);
    if rate == 3 {
      return Err(BadSamplerate);
    }
    r := Ok(Header(layer, lsf, mpeg25, check, Bitrate(index, layer, lsf), Samplerate(rate, lsf, mpeg25),
                   false, false, 0, 0, false, false, 0));
  }

  method DecodeFlags(ptr: BitPtr, start: Header, ghost buf: seq<byte>, ghost p: nat, ghost field: (nat, nat) -> nat)
    returns (h: Header)
    requires ptr.Valid() && ptr.buf == buf && ptr.Pos() == 8 * p + 22 && p + BUFFER_GUARD <= |buf|
             && Layout(field, buf, p)
    modifies ptr
    ensures ptr.Valid() && ptr.buf == buf
    ensures ptr.Pos() == 8 * p + 26
    ensures h == start.(padding := field(22, 1) != 0, privateBit := field(23, 1) != 0, mode := 3 - field(24, 2))
  {
    var padding := Number(ptr, 1, buf, p, 22, field);
    var private' := Number(ptr, 1, buf, p, 23, field);
    var mode := Number(ptr, 2, buf, p, 24, field);
    h := start.(padding := padding != 0, privateBit := private' != 0, mode := 3 - mode);
  }

  method DecodeTail(ptr: BitPtr, start: Header, ghost buf: seq<byte>, ghost p: nat, ghost field: (nat, nat) -> nat)
    returns (h: Header)
    requires ptr.Valid() && ptr.buf == buf && ptr.Pos() == 8 * p + 26 && p + BUFFER_GUARD <= |buf|
             && Layout(field, buf, p)
    modifies ptr
    ensures ptr.Valid() && ptr.buf == buf
    ensures ptr.Pos() == 8 * AfterHeader(p, h)
    ensures h == start.(modeExtension := field(26, 2), copyright := field(28, 1) != 0, original := field(29, 1) != 0,
                        emphasis := field(30, 2),
                        check := if start.check.NoCheck? then NoCheck else Check(start.check.computed, field(32, 16)))
  {
    var modeExtension := Number(ptr, 2, buf, p, 26, field);
    var copyright := Number(ptr, 1, buf, p, 28, field);
    var original := Number(ptr, 1, buf, p, 29, field);
    var emphasis := Number(ptr, 2, buf, p, 30, field);
    h := start.(modeExtension := modeExtension, copyright := copyright != 0,
      original := original != 0, emphasis := emphasis);
    if h.check.Check? {
      var target := Number(ptr, 16, buf, p, 32, field);
      h := h.(check := Check(h.check.computed, target));
    }
  }

  method DecodeHeader(ptr: BitPtr, ghost p: nat) returns (r: Result<Header>)
    requires ptr.Valid() && ptr.Pos() == 8 * p && p + BUFFER_GUARD <= |ptr.buf|
    modifies ptr
    ensures ptr.Valid() && ptr.buf == old(ptr.buf)
    ensures r == HeaderAt(ptr.buf, p)
    ensures r.Ok? ==> ptr.Pos() == 8 * AfterHeader(p, r.value)
  {
    r := DecodeFields(ptr, ptr.buf, p, Fields(ptr.buf, p), CrcOf(0xffff, BitsAt(ptr.buf, 8 * p + 16, 16)));
  }

  /** The header decoder in terms of the view. */
  method Peek(ptr: BitPtr, ghost p: nat, ghost heads: Heads) returns (r: Result<Header>)
    requires ptr.Valid() && ptr.Pos() == 8 * p && p + BUFFER_GUARD <= |ptr.buf| && Shows(heads, ptr.buf)
    modifies ptr
    ensures ptr.Valid() && ptr.buf == old(ptr.buf)
    ensures r == heads(p) && (r.Err? ==> r.error.Recoverable())
    ensures r.Ok? ==> ptr.Pos() == 8 * AfterHeader(p, r.value)
  {
    r := DecodeHeader(ptr, p);
  }

  class MadStream {
    var attached: bool          // a buffer has been set
    var buffer: seq<byte>
    var skiplen: nat
    var sync: bool
    var freerate: nat           // bits per second; 0 while unknown
    var thisFrame: nat
    var nextFrame: nat
    const ptr: BitPtr

    ghost predicate Valid()
      reads this, ptr
    {
      && ptr.Valid() && ptr.buf == buffer
      && thisFrame <= |buffer| && nextFrame <= |buffer|
      && (freerate == 0 || freerate >= 8000)
    }

    constructor ()
      ensures Valid() && !attached && skiplen == 0 && fresh(ptr)
    {
      attached, buffer, skiplen, sync, freerate, thisFrame, nextFrame := false, [], 0, false, 0, 0, 0;
      ptr := new BitPtr([], 0);
    }

    /** Supplies a buffer; the stream is taken to be at a frame. */
    method SetBuffer(data: seq<byte>)
      requires Valid()
      modifies this, ptr
      ensures Valid() && attached && buffer == data && thisFrame == 0 && nextFrame == 0 && sync
      ensures skiplen == old(skiplen) && freerate == old(freerate)
    {
      attached, buffer := true, data;
      thisFrame, nextFrame := 0, 0;
      sync := true;
      ptr.Init(data, 0);
    }

    /** Moves the cursor to the next sync word with enough bytes after it, if there is one. */
    method StreamSync(ghost from: nat) returns (found: bool, ghost q: nat)
      requires Valid() && from <= |buffer| && 8 * from - 8 < ptr.Pos() <= 8 * from
      modifies ptr
      ensures Valid()
      ensures found ==> FirstSync(buffer, from, q) && ptr.Pos() == 8 * q && ptr.left == 8
      ensures !found ==> forall k: nat | from <= k && k + BUFFER_GUARD <= |buffer| :: !SyncAt(buffer, k)
    {
      var i := ptr.NextByte();
      while i < |buffer| - 1 && !(buffer[i] == 0xff && buffer[i + 1] >= 0xe0)
        invariant from <= i <= |buffer|
        invariant forall k | from <= k < i :: !SyncAt(buffer, k)
      {
        i := i + 1;
      }
      q := i;
      if |buffer| - i < BUFFER_GUARD {
        found := false;
      } else {
        ptr.Init(buffer, i);
        found := true;
      }
    }

    /** What the sync word under the cursor says about the rate; the cursor stays. */
    method TryCandidate(h: Header, ghost q: nat, ghost heads: Heads) returns (c: Option<nat>)
      requires Valid() && Shows(heads, buffer)
      requires thisFrame + 4 <= q && q + BUFFER_GUARD <= |buffer| && ptr.Pos() == 8 * q && ptr.left == 8
      ensures c == CandidateAt(heads, thisFrame, h, q)
      ensures c.Some? ==> c.value >= 8
    {
      var peek := new BitPtr(buffer, 0);
      peek.Assign(ptr);
      var r := Peek(peek, q, heads);
      var i := ptr.NextByte();
      c := Suggested(r, h, i - thisFrame);
    }

    /** Looks ahead for the next header of the same kind to find the rate of a free-format stream. */
    method FreeBitrate(h: Header, ghost heads: Heads) returns (ok: bool)
      requires Valid() && Shows(heads, buffer)
      requires thisFrame + BUFFER_GUARD <= |buffer| && ptr.Pos() == 8 * AfterHeader(thisFrame, h)
      modifies this`freerate, ptr
      ensures Valid() && ptr.Pos() == old(ptr.Pos())
      ensures match FreeRate(buffer, heads, thisFrame, h)
              case Some(rate) => ok && freerate == 1000 * rate >= 8000
              case None => !ok && freerate == old(freerate)
    {
      var keep := new BitPtr(buffer, 0);
      keep.Assign(ptr);
      var c := Search(h, heads, Candidates(heads, thisFrame, h), AfterHeader(thisFrame, h));
      ptr.Assign(keep);
      ok := c.Some? && !(h.layer == 3 && c.value > 640);
      if ok {
        freerate := c.value * 1000;
      }
    }

    method Search(h: Header, ghost heads: Heads, ghost candidate: nat -> Option<nat>, ghost start: nat)
      returns (c: Option<nat>)
      requires Valid() && Shows(heads, buffer)
      requires forall q: nat {:trigger CandidateAt(heads, thisFrame, h, q)} ::
               CandidateAt(heads, thisFrame, h, q) == candidate(q)
      requires thisFrame + 4 <= start <= |buffer| && ptr.Pos() == 8 * start
      modifies ptr
      ensures Valid()
      ensures c == FirstCandidate(buffer, candidate, start)
      ensures c.Some? ==> c.value >= 8
    {
      c := None;
      ghost var from := start;
      while true
        invariant Valid()
        invariant c == None && start <= from <= |buffer| && 8 * from - 8 < ptr.Pos() <= 8 * from
        invariant FirstCandidate(buffer, candidate, start) == FirstCandidate(buffer, candidate, from)
        decreases |buffer| - from
      {
        var found; ghost var q;
        found, q := StreamSync(from);
        if !found {
          FirstCandidateFrom(buffer, candidate, from, |buffer|);
          break;
        }
        FirstCandidateFrom(buffer, candidate, from, q);
        c := TryCandidate(h, q, heads);
        if c.Some? {
          break;
        }
        ptr.Skip(8);
        from := q + 1;
      }
    }

    /** The rate of the frame at hand: from its header, from an earlier frame, or by looking ahead. */
    method FindRate(h: Header, ghost heads: Heads) returns (bitrate: Option<nat>)
      requires Valid() && Shows(heads, buffer) && (h.bitrate == 0 || h.bitrate >= 8000)
      requires thisFrame + BUFFER_GUARD <= |buffer| && ptr.Pos() == 8 * AfterHeader(thisFrame, h)
      modifies this`freerate, ptr
      ensures Valid() && (bitrate.Some? ==> bitrate.value >= 8000)
      ensures bitrate == RateFor(buffer, heads, thisFrame, h, sync, old(freerate))
      ensures if bitrate.Some? then Remembers(h, bitrate.value, old(freerate)) else freerate == old(freerate)
    {
      if h.bitrate != 0 {
        return Some(h.bitrate);
      }
      if freerate == 0 || !sync || (h.layer == 3 && freerate > 640000) {
        var ok := FreeBitrate(h, heads);
        if !ok {
          return None;
        }
      }
      bitrate := Some(freerate);
    }

    /** Everything up to the frame length for the sync word at `p`. */
    method Process(p: nat, ghost heads: Heads) returns (r: Result<Header>, n: nat)
      requires Valid() && Shows(heads, buffer) && p + BUFFER_GUARD <= |buffer|
      modifies this`thisFrame, this`nextFrame, this`freerate, ptr
      ensures Valid() && thisFrame == p && nextFrame == p + 1
      ensures r.Err? ==> Judge(buffer, heads, p) == Rejected(r.error) && r.error.Recoverable()
      ensures r.Err? ==> heads(p) == r || (heads(p).Ok? && r == Err(LostSync) &&
                                           RateFor(buffer, heads, p, heads(p).value, sync, old(freerate)) == None)
      ensures r.Ok? ==> n >= BUFFER_GUARD && IsHeader(heads, p, r.value, n)
      ensures r.Ok? ==> RateFor(buffer, heads, p, heads(p).value, sync, old(freerate)) == Some(r.value.bitrate)
      ensures if r.Ok? then Remembers(heads(p).value, r.value.bitrate, old(freerate)) else freerate == old(freerate)
    {
      thisFrame := p;
      nextFrame := p + 1;       // possibly bogus sync word
      ptr.Init(buffer, p);
      r := Peek(ptr, p, heads);
      if r.Err? {
        return r, 0;
      }
      var h := r.value;
      var bitrate := FindRate(h, heads);
      if bitrate == None {
        return Err(LostSync), 0;
      }
      r := Ok(h.(bitrate := bitrate.value));
      n := FrameLength(r.value, bitrate.value);
      FrameLengthAtLeastGuard(h, bitrate.value);
    }

    /** `Process` while unsynchronised, in terms of the verdict on `p`. */
    method Try(p: nat, ghost heads: Heads, ghost verdicts: Verdicts) returns (r: Result<Header>, n: nat)
      requires Valid() && Shows(heads, buffer) && Judges(verdicts, buffer, heads) && !sync
               && p + BUFFER_GUARD <= |buffer|
      modifies this`thisFrame, this`nextFrame, this`freerate, ptr
      ensures Valid() && thisFrame == p && nextFrame == p + 1
      ensures r.Err? ==> r.error.Recoverable() && verdicts(p) == Rejected(r.error)
      ensures r.Ok? ==> n >= BUFFER_GUARD && IsHeader(heads, p, r.value, n) && Rated(heads, r.value)
      ensures r.Ok? ==> verdicts(p) == if n + BUFFER_GUARD > |buffer| - p then TooLong
                                       else if SyncAt(buffer, p + n) then Confirmed(n) else Dismissed
    {
      r, n := Process(p, heads);
      assert Judge(buffer, heads, p) == verdicts(p);
    }

    /** The next sync word from `start` on; if there is none, the rest of the buffer is given up. */
    method NextSync(start: nat, ghost verdicts: Verdicts) returns (found: bool, p: nat)
      requires Valid() && start == nextFrame
      modifies this`nextFrame, ptr
      ensures Valid()
      ensures found ==> FirstSync(buffer, start, p) && nextFrame == start
      ensures !found ==> Progress(start, Err(BufLen)) && NothingLost(verdicts, start, Err(BufLen))
    {
      ptr.Init(buffer, start);
      ghost var q;
      found, q := StreamSync(start);
      p := 0;
      if found {
        p := ptr.NextByte();
      } else if |buffer| - nextFrame >= BUFFER_GUARD {
        nextFrame := |buffer| - BUFFER_GUARD;
      }
    }

    /** With the frame length `n` known: does the frame fit, and does another sync word follow it? */
    method Conclude(n: nat, h: Header, ghost start: nat, ghost verdicts: Verdicts)
      returns (retry: bool, r: Result<Header>)
      requires Valid() && !sync && nextFrame == thisFrame + 1 && n >= BUFFER_GUARD
               && FirstSync(buffer, start, thisFrame)
      requires verdicts(thisFrame) == if n + BUFFER_GUARD > |buffer| - thisFrame then TooLong
                                      else if SyncAt(buffer, thisFrame + n) then Confirmed(n) else Dismissed
      modifies this`nextFrame, this`sync
      ensures Valid() && (sync <==> !retry && r.Ok?)
      ensures retry ==> nextFrame > start && forall q | start <= q < nextFrame :: PassedOver(buffer, verdicts, q)
      ensures !retry ==> Progress(start, r) && NothingLost(verdicts, start, r)
      ensures !retry && r.Ok? ==>
              r == Ok(h) && nextFrame == thisFrame + n && nextFrame + BUFFER_GUARD <= |buffer|
              && verdicts(thisFrame) == Confirmed(n)
    {
      retry := false;
      if n + BUFFER_GUARD > |buffer| - thisFrame {
        nextFrame := thisFrame;
        return false, Err(BufLen);
      }
      nextFrame := thisFrame + n;
      r := Ok(h);
      if SyncAt(buffer, nextFrame) {
        sync := true;
      } else {
        nextFrame := thisFrame + 1;
        retry := true;
      }
    }

    /** One pass of the scan: find a sync word, try it, and look for another behind its frame. */
    method Attempt(start: nat, ghost heads: Heads, ghost verdicts: Verdicts) returns (retry: bool, r: Result<Header>)
      requires Valid() && Shows(heads, buffer) && Judges(verdicts, buffer, heads) && !sync && start == nextFrame
      modifies this`thisFrame, this`nextFrame, this`freerate, this`sync, ptr
      ensures Valid() && (sync <==> !retry && r.Ok?)
      ensures retry ==> nextFrame > start && forall q | start <= q < nextFrame :: PassedOver(buffer, verdicts, q)
      ensures !retry ==> Progress(start, r) && NothingLost(verdicts, start, r)
      ensures !retry && r.Ok? ==> IsFrame(heads, r.value) && verdicts(thisFrame) == Confirmed(nextFrame - thisFrame)
      ensures !retry && r.Ok? ==> Rated(heads, r.value)
    {
      var found, p := NextSync(start, verdicts);
      if !found {
        return false, Err(BufLen);
      }
      var n;
      r, n := Try(p, heads, verdicts);
      if r.Err? {
        return false, r;
      }
      retry, r := Conclude(n, r.value, start, verdicts);
    }

    /** Decoding without synchronisation: the scan that restarts after every dismissed sync word. */
    method Resync(from: nat, ghost heads: Heads, ghost verdicts: Verdicts) returns (r: Result<Header>)
      requires Valid() && Shows(heads, buffer) && Judges(verdicts, buffer, heads) && !sync && from == nextFrame
      modifies this`thisFrame, this`nextFrame, this`freerate, this`sync, ptr
      ensures Valid() && (sync <==> r.Ok?)
      ensures Progress(from, r)
      ensures r.Ok? ==> IsFrame(heads, r.value) && verdicts(thisFrame) == Confirmed(nextFrame - thisFrame)
      ensures r.Ok? ==> Rated(heads, r.value)
      ensures NothingLost(verdicts, from, r)
    {
      var retry;
      retry, r := Attempt(from, heads, verdicts);
      while retry
        invariant Valid() && from <= nextFrame && (sync <==> !retry && r.Ok?)
        invariant retry ==> forall q | from <= q < nextFrame :: PassedOver(buffer, verdicts, q)
        invariant !retry ==> Progress(from, r) && NothingLost(verdicts, from, r)
        invariant !retry && r.Ok? ==> IsFrame(heads, r.value) && verdicts(thisFrame) == Confirmed(nextFrame - thisFrame)
        invariant !retry && r.Ok? ==> Rated(heads, r.value)
        decreases retry, |buffer| - nextFrame
      {
        retry, r := Attempt(nextFrame, heads, verdicts);
      }
    }

    /** Either the caller must refill the buffer, or the next call starts further on. */
    ghost predicate Progress(from: nat, r: Result<Header>)
      reads this
    {
      nextFrame >= from && r != Err(BufPtr) && (r != Err(BufLen) ==> nextFrame > from)
    }

    /** A decoded frame: its sync word, its header, and room for it and the guard in the buffer. */
    ghost predicate IsFrame(heads: Heads, h: Header)
      reads this
    {
      && SyncAt(buffer, thisFrame)
      && thisFrame + BUFFER_GUARD <= nextFrame && nextFrame + BUFFER_GUARD <= |buffer|
      && IsHeader(heads, thisFrame, h, nextFrame - thisFrame)
    }

    /** A frame whose header gives no rate has left its own in `freerate`, any other kept what was there. */
    ghost predicate Remembers(g: Header, bitrate: nat, was: nat)
      reads this
    {
      freerate == if g.bitrate == 0 then bitrate else was
    }

    /** `h` carries the rate of its header, or else the one found by looking ahead, which is remembered. */
    ghost predicate Rated(heads: Heads, h: Header)
      reads this
    {
      && heads(thisFrame).Ok?
      && FrameBitrate(buffer, heads, thisFrame, heads(thisFrame).value) == Some(h.bitrate)
      && (heads(thisFrame).value.bitrate == 0 ==> freerate == h.bitrate)
    }

    /** Where a scan from `from` may pass a sync word by. */
    ghost predicate NothingLost(verdicts: Verdicts, from: nat, r: Result<Header>)
      reads this
    {
      if r.Err? && !r.error.Recoverable() then
        // every byte before `nextFrame` is done with; what is left is a frame cut off by the buffer, or nothing
        && (forall q | from <= q < nextFrame :: PassedOver(buffer, verdicts, q))
        && (|| (nextFrame + BUFFER_GUARD <= |buffer| && SyncAt(buffer, nextFrame) && verdicts(nextFrame) == TooLong)
            || (forall q: nat | from <= q :: PassedOver(buffer, verdicts, q)))
      else
        // only the sync word tried last was not passed over, and its fate is the result
        && from <= thisFrame
        && (forall q | from <= q < thisFrame :: PassedOver(buffer, verdicts, q))
        && SyncAt(buffer, thisFrame) && thisFrame + BUFFER_GUARD <= |buffer|
        && (r.Err? ==> verdicts(thisFrame) == Rejected(r.error) && nextFrame == thisFrame + 1)
    }

    /** Where the bytes to be skipped begin. */
    ghost function SkipFrom(): nat
      reads this
    {
      if skiplen > 0 && !sync then thisFrame else nextFrame
    }

    /**
     `h` is the header of this frame with the right rate: the header's own if it gives one;
     otherwise the one in `freerate`, which is `was` if sync was kept and `was` is usable, and
     else the one just found ahead.
     */
    ghost predicate Settled(heads: Heads, h: Header, synced: bool, was: nat)
      reads this
    {
      && heads(thisFrame).Ok?
      && var own := heads(thisFrame).value;
      && var known := synced && was != 0 && (own.layer == 3 ==> was <= 640000);
      && (own.bitrate != 0 ==> h == own)
      && (own.bitrate == 0 ==> h == own.(bitrate := freerate))
      && (own.bitrate == 0 && known ==> freerate == was)
      && (own.bitrate == 0 && !known ==>
          match FreeRate(buffer, heads, thisFrame, own)
          case Some(k) => freerate == 1000 * k
          case None => false)
    }

    lemma RateSettled(heads: Heads, p: nat, h: Header, synced: bool, was: nat)
      requires IsFrame(heads, h)
      requires if synced then thisFrame == p && Outcome(Ok(h), nextFrame, freerate) == Expected(buffer, heads, p, was)
               else Rated(heads, h)
      ensures Settled(heads, h, synced, was)
    {
    }

    /** While synchronised, the next frame must start exactly where the last one ended. */
    method Continue(p: nat, ghost heads: Heads) returns (r: Result<Header>)
      requires Valid() && Shows(heads, buffer) && sync && p <= |buffer|
      modifies this`thisFrame, this`nextFrame, this`freerate, this`sync, ptr
      ensures Valid() && (sync <==> r.Ok?)
      ensures Progress(p, r) && (p + BUFFER_GUARD <= |buffer| ==> thisFrame == p)
      ensures Outcome(r, nextFrame, freerate) == Expected(buffer, heads, p, old(freerate))
      ensures r.Ok? ==> thisFrame == p && IsFrame(heads, r.value)
    {
      if |buffer| - p < BUFFER_GUARD {
        nextFrame := p;
        sync := false;
        return Err(BufLen);
      } else if !(buffer[p] == 0xff && buffer[p + 1] >= 0xe0) {
        thisFrame := p;
        nextFrame := p + 1;
        sync := false;
        return Err(LostSync);
      }
      ghost var was := freerate;
      var n;
      r, n := Process(p, heads);
      if r.Ok? {
        ExpectedFound(buffer, heads, p, was, r.value, n, freerate);
        if n + BUFFER_GUARD > |buffer| - thisFrame {
          nextFrame := thisFrame;
          r := Err(BufLen);
        } else {
          nextFrame := thisFrame + n;
        }
      }
      sync := r.Ok?;
    }

    /** Reads the next frame header, in terms of the decoder's view of the buffer. */
    method HeaderDecode(ghost heads: Heads, ghost verdicts: Verdicts) returns (r: Result<Header>)
      requires Valid() && Shows(heads, buffer) && Judges(verdicts, buffer, heads)
      modifies this`thisFrame, this`nextFrame, this`freerate, this`sync, this`skiplen, ptr
      ensures Valid() && (sync <==> r.Ok?) && (r == Err(BufPtr) <==> !attached)
      ensures attached && old(SkipFrom() + skiplen) > |buffer| ==>
                r == Err(BufLen) && nextFrame == |buffer| && skiplen == old(skiplen - (|buffer| - SkipFrom()))
      ensures attached && old(SkipFrom() + skiplen) <= |buffer| ==>
                && skiplen == 0 && Progress(old(SkipFrom() + skiplen), r)
                && (r.Ok? ==> old(SkipFrom() + skiplen) <= thisFrame)
      ensures attached && old(SkipFrom() + skiplen <= |buffer| && (sync || skiplen > 0)) ==>
                Outcome(r, nextFrame, freerate) == Expected(buffer, heads, old(SkipFrom() + skiplen), old(freerate))
      ensures r.Ok? ==> IsFrame(heads, r.value)
      ensures r.Ok? ==> Settled(heads, r.value, old(sync || skiplen > 0), old(freerate))
      ensures attached && old(skiplen) == 0 && !old(sync) ==> NothingLost(verdicts, old(nextFrame), r)
    {
      if !attached {
        sync := false;
        return Err(BufPtr);
      }
      ghost var was := freerate;
      var ready, p := SkipAhead();
      if !ready {
        return Err(BufLen);
      }
      ghost var synced := sync;
      if sync {
        r := Continue(p, heads);
      } else {
        r := Resync(p, heads, verdicts);
      }
      if r.Ok? {
        RateSettled(heads, p, r.value, synced, was);
      }
    }

    /** Leaves out the bytes to be skipped; the stream is then taken to be at a frame. */
    method SkipAhead() returns (ready: bool, p: nat)
      requires Valid()
      modifies this`nextFrame, this`sync, this`skiplen
      ensures Valid() && (ready <==> old(SkipFrom() + skiplen) <= |buffer|)
      ensures ready ==> p == old(SkipFrom() + skiplen) && skiplen == 0 && (sync <==> old(sync || skiplen > 0))
                        && nextFrame == old(nextFrame) && (!sync ==> p == nextFrame)
      ensures !ready ==> nextFrame == |buffer| && !sync && skiplen == old(skiplen - (|buffer| - SkipFrom()))
    {
      p := nextFrame;
      if skiplen != 0 {
        if !sync {
          p := thisFrame;
        }
        if |buffer| - p < skiplen {
          skiplen := skiplen - (|buffer| - p);
          nextFrame := |buffer|;
          sync := false;
          return false, p;
        }
        p := p + skiplen;
        skiplen := 0;
        sync := true;
      }
      ready := true;
    }

    /** Reads the next frame header from the stream. */
    method MadHeaderDecode() returns (r: Result<Header>)
      requires Valid()
      modifies this`thisFrame, this`nextFrame, this`freerate, this`sync, this`skiplen, ptr
      ensures Valid() && (sync <==> r.Ok?) && (r == Err(BufPtr) <==> !attached)
      ensures attached && old(SkipFrom() + skiplen) > |buffer| ==>
                r == Err(BufLen) && nextFrame == |buffer| && skiplen == old(skiplen - (|buffer| - SkipFrom()))
      ensures attached && old(SkipFrom() + skiplen) <= |buffer| ==>
                && skiplen == 0 && Progress(old(SkipFrom() + skiplen), r)
                && (r.Ok? ==> old(SkipFrom() + skiplen) <= thisFrame)
      ensures attached && old(SkipFrom() + skiplen <= |buffer| && (sync || skiplen > 0)) ==>
                Outcome(r, nextFrame, freerate)
                == Expected(buffer, HeadsOf(buffer), old(SkipFrom() + skiplen), old(freerate))
      ensures r.Ok? ==> IsFrame(HeadsOf(buffer), r.value)
      ensures r.Ok? ==> Settled(HeadsOf(buffer), r.value, old(sync || skiplen > 0), old(freerate))
      ensures attached && old(skiplen) == 0 && !old(sync) ==>
                NothingLost(VerdictsOf(buffer, HeadsOf(buffer)), old(nextFrame), r)
    {
      ghost var heads := HeadsOf(buffer);
      ghost var verdicts := VerdictsOf(buffer, heads);
      HeadsOfShows(buffer);
      VerdictsOfJudges(buffer, heads);
      r := HeaderDecode(heads, verdicts);
      assert buffer == old(buffer) && heads == HeadsOf(buffer) && verdicts == VerdictsOf(buffer, heads);
    }

    /**
     Without synchronisation: if the first sync word is that of a frame that gives its rate, fits and is
     followed by another, a call that loses nothing has decoded this frame.
     */
    lemma FirstFrameFound(heads: Heads, verdicts: Verdicts, from: nat, q: nat, own: Header, n: nat, r: Result<Header>)
      requires Progress(from, r) && NothingLost(verdicts, from, r)
      requires r.Ok? ==> IsFrame(heads, r.value) && Settled(heads, r.value, false, 0)
      requires q <= |buffer| && verdicts(q) == Judge(buffer, heads, q)
      requires FirstSync(buffer, from, q) && heads(q) == Ok(own) && own.bitrate != 0 && own.samplerate > 0
      requires n == FrameLength(own, own.bitrate) && q + n + BUFFER_GUARD <= |buffer| && SyncAt(buffer, q + n)
      ensures r == Ok(own) && thisFrame == q && nextFrame == q + n
    {
      assert verdicts(q) == Confirmed(n);
      assert !PassedOver(buffer, verdicts, q);
    }

    /** A call on which a frame is expected. */
    method DecodeNext(ghost expected: nat -> Outcome, ghost heads: Heads, ghost verdicts: Verdicts, ghost h: Header,
      ghost next: nat) returns (r: Header)
      requires Valid() && attached && skiplen == 0 && sync
      requires Shows(heads, buffer) && Judges(verdicts, buffer, heads)
      requires Foresees(expected, buffer, heads, freerate)
      requires expected(nextFrame) == Outcome(Ok(h), next, freerate)
      modifies this`thisFrame, this`nextFrame, this`freerate, this`sync, this`skiplen, ptr
      ensures Valid() && skiplen == 0 && sync && freerate == old(freerate) && nextFrame == next && r == h
    {
      assert expected(nextFrame) == Expected(buffer, heads, nextFrame, freerate);
      var d := HeaderDecode(heads, verdicts);
      r := d.value;
    }

    /** Any number of such calls. */
    method DecodeRun(ghost expected: nat -> Outcome, ghost heads: Heads, ghost verdicts: Verdicts,
      ghost hs: seq<Header>, ghost starts: seq<nat>, n: nat) returns (headers: seq<Header>)
      requires Valid() && attached && skiplen == 0 && sync && |hs| == n && |starts| == n + 1 && starts[0] == nextFrame
      requires Shows(heads, buffer) && Judges(verdicts, buffer, heads)
      requires Foresees(expected, buffer, heads, freerate)
      requires forall i | 0 <= i < n :: expected(starts[i]) == Outcome(Ok(hs[i]), starts[i + 1], freerate)
      modifies this`thisFrame, this`nextFrame, this`freerate, this`sync, this`skiplen, ptr
      ensures Valid() && sync && freerate == old(freerate) && nextFrame == starts[n] && headers == hs
    {
      headers := [];
      ghost var buf, rate := buffer, freerate;
      for i := 0 to n
        invariant Valid() && skiplen == 0 && sync && freerate == rate && buffer == buf
        invariant nextFrame == starts[i] && headers == hs[..i]
      {
        var h := DecodeNext(expected, heads, verdicts, hs[i], starts[i + 1]);
        headers := headers + [h];
      }
    }

    /** A clean stream is decoded frame by frame, each with its own header and rate. */
    method DecodeStream(ghost starts: seq<nat>, ghost owns: seq<Header>, n: nat) returns (headers: seq<Header>)
      requires Valid() && attached && skiplen == 0 && sync && |owns| == n
      requires CleanStream(buffer, HeadsOf(buffer), starts, owns, freerate) && starts[0] == nextFrame
      modifies this`thisFrame, this`nextFrame, this`freerate, this`sync, this`skiplen, ptr
      ensures Valid() && sync && freerate == old(freerate) && nextFrame == starts[n] && |headers| == n
      ensures forall i | 0 <= i < n :: headers[i] == Filled(owns[i], freerate)
    {
      ghost var heads := HeadsOf(buffer);
      ghost var verdicts := VerdictsOf(buffer, heads);
      ghost var expected, hs := StreamExpected(buffer, heads, starts, owns, freerate);
      HeadsOfShows(buffer);
      VerdictsOfJudges(buffer, heads);
      headers := DecodeRun(expected, heads, verdicts, hs, starts, n);
    }

    /** One call, as far as the places of frames are concerned. */
    method NextFrame() returns (r: Result<Extent>)
      requires Valid() && attached && skiplen == 0
      modifies this`thisFrame, this`nextFrame, this`freerate, this`sync, this`skiplen, ptr
      ensures Valid() && skiplen == 0 && old(nextFrame) <= nextFrame
      ensures r.Ok? || r.error.Recoverable() ==> old(nextFrame) < nextFrame
      ensures r.Ok? ==> old(nextFrame) <= r.value.start && r.value.Fits(buffer) && r.value.End() == nextFrame
    {
      var h := MadHeaderDecode();
      r := if h.Ok? then Ok(Extent(thisFrame, nextFrame - thisFrame)) else Err(h.error);
    }

    /** Decodes headers until the buffer is used up: the frames found, and the number of calls made. */
    method DecodeAll() returns (frames: seq<Extent>, calls: nat)
      requires Valid() && attached && skiplen == 0
      modifies this`thisFrame, this`nextFrame, this`freerate, this`sync, this`skiplen, ptr
      ensures Valid()
      ensures calls <= |buffer| - old(nextFrame) + 1
      ensures Disjoint(buffer, old(nextFrame), frames, nextFrame)
    {
      frames, calls := [], 0;
      ghost var first := nextFrame;
      var done := false;
      while !done
        invariant Valid() && attached && skiplen == 0 && first <= nextFrame
        invariant calls <= nextFrame - first + if done then 1 else 0
        invariant Disjoint(buffer, first, frames, nextFrame)
        decreases !done, |buffer| - nextFrame
      {
        ghost var before, was := nextFrame, frames;
        var r := NextFrame();
        calls := calls + 1;
        if r.Ok? {
          frames := frames + [r.value];
          assert frames[..|frames| - 1] == was;
          DisjointWiden(buffer, first, was, before, r.value.start);
        } else {
          DisjointWiden(buffer, first, was, before, nextFrame);
          done := !r.error.Recoverable();
        }
      }
    }
  }

  /** A frame's place in the buffer. */
  datatype Extent = Extent(start: nat, length: nat) {
    function End(): nat { start + length }

    /** It begins with a sync word and leaves room for the guard. */
    predicate Fits(buf: seq<byte>) {
      SyncAt(buf, start) && length >= BUFFER_GUARD && End() + BUFFER_GUARD <= |buf|
    }
  }

  /** The frames lie one after the other between `lo` and `hi`. */
  ghost predicate Disjoint(buf: seq<byte>, lo: nat, frames: seq<Extent>, hi: nat) {
    if frames == [] then lo <= hi
    else
      var last := frames[|frames| - 1];
      last.Fits(buf) && last.End() <= hi && Disjoint(buf, lo, frames[..|frames| - 1], last.start)
  }

  lemma DisjointWiden(buf: seq<byte>, lo: nat, frames: seq<Extent>, hi: nat, higher: nat)
    requires Disjoint(buf, lo, frames, hi) && hi <= higher
    ensures Disjoint(buf, lo, frames, higher)
  {
  }
}
