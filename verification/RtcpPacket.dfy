/**
 RTCP compound packets (section 6.1 of RFC 3550): how reports are put
 together from subpackets, and how an incoming packet is taken apart.
 */
module RtcpPacket {
  import opened Wrappers
  import opened Octets

  const PT_SR: byte := 200
  const PT_RR: byte := 201
  const PT_SDES: byte := 202
  const PT_BYE: byte := 203
  const PT_APP: byte := 204

  // ----- subpackets -----

  datatype Block = Block(ssrc: word, loss: word, highest: word, jitter: word, lastSR: word, sinceSR: word)

  /** An SDES item: tag, length and at most 255 bytes. */
  type Item = s: seq<byte> | |s| <= 257

  datatype Subpacket =
    | SenderReport(ssrc: word, msw: word, lsw: word, rtp: word, packets: word, octets: word, blocks: seq<Block>)
    | ReceiverReport(ssrc: word, blocks: seq<Block>)
    | Description(ssrc: word, item: Item)
    | Bye(ssrc: word)

  function BlockWords(b: Block): (ws: seq<word>)
    ensures |ws| == 6
  {
    [b.ssrc, b.loss, b.highest, b.jitter, b.lastSR, b.sinceSR]
  }

  function BlocksWords(blocks: seq<Block>): (ws: seq<word>)
    ensures |ws| == 6 * |blocks|
  {
    if blocks == [] then [] else BlocksWords(blocks[..|blocks| - 1]) + BlockWords(blocks[|blocks| - 1])
  }

  /** How many blocks a header owns up to. */
  function Capped(n: nat): nat { if n >= 32 then 32 else n }

  /**
   Version 2, a 5-bit count, the packet type and the number of words that follow; a
   count of 32 runs over into the padding bit.
   */
  function Header(count: nat, pt: byte, words: nat): word
    requires count <= 32 && words < 0x1_0000
  {
    0x8000_0000 + count * 0x100_0000 + (pt as nat) * 0x1_0000 + words
  }

  function Zeros(n: nat): (b: seq<byte>)
    ensures |b| == n
  {
    seq(n, i => 0)
  }

  function TypeOf(s: Subpacket): byte {
    match s
    case SenderReport(_, _, _, _, _, _, _) => PT_SR
    case ReceiverReport(_, _) => PT_RR
    case Description(_, _) => PT_SDES
    case Bye(_) => PT_BYE
  }

  predicate Reports(s: Subpacket) { s.SenderReport? || s.ReceiverReport? }

  /** The block count as written; the one chunk or SSRC of other subpackets. */
  function CountIn(s: Subpacket): (n: nat)
    ensures n <= 32
  {
    if Reports(s) then Capped(|s.blocks|) else 1
  }

  /** The length as written. */
  function WordsIn(s: Subpacket): (n: nat)
    ensures n < 0x1_0000
  {
    match s
    case SenderReport(_, _, _, _, _, _, blocks) => 6 + 6 * Capped(|blocks|)
    case ReceiverReport(_, blocks) => 1 + 6 * Capped(|blocks|)
    case Description(_, item) => (|item| + 8) / 4
    case Bye(_) => 1
  }

  function HeaderOf(s: Subpacket): word {
    Header(CountIn(s), TypeOf(s), WordsIn(s))
  }

  /** An item ends with at least one zero byte, and at a word boundary. */
  function Padded(item: Item): (b: seq<byte>)
    ensures |b| % 4 == 0
  {
    item + Zeros(4 - |item| % 4)
  }

  /** What follows header and SSRC. */
  function Payload(s: Subpacket): seq<word> {
    match s
    case SenderReport(_, msw, lsw, rtp, packets, octets, blocks) => [msw, lsw, rtp, packets, octets]
      + BlocksWords(blocks)
    case ReceiverReport(_, blocks) => BlocksWords(blocks)
    case Description(_, item) => Pack(Padded(item))
    case Bye(_) => []
  }

  function Words(s: Subpacket): seq<word> {
    [HeaderOf(s), s.ssrc] + Payload(s)
  }

  function Flatten(words: Subpacket -> seq<word>, subs: seq<Subpacket>): seq<word> {
    if subs == [] then [] else words(subs[0]) + Flatten(words, subs[1..])
  }

  lemma Regrouped(x: seq<word>, y: seq<word>, z: seq<word>)
    ensures x + y + z == x + (y + z)
  {
  }

  lemma {:induction false} FlattenConcat(words: Subpacket -> seq<word>, x: seq<Subpacket>, y: seq<Subpacket>)
    ensures Flatten(words, x + y) == Flatten(words, x) + Flatten(words, y)
  {
    if x == [] {
      assert x + y == y;
    } else {
      FlattenConcat(words, x[1..], y);
      assert (x + y)[1..] == x[1..] + y;
      Regrouped(words(x[0]), Flatten(words, x[1..]), Flatten(words, y));
    }
  }

  function AllWords(subs: seq<Subpacket>): seq<word> {
    Flatten(Words, subs)
  }

  lemma AllWordsFirst(subs: seq<Subpacket>)
    requires subs != []
    ensures AllWords(subs) == Words(subs[0]) + AllWords(subs[1..])
  {
  }

  /** A packet as it is sent. */
  function Encode(subs: seq<Subpacket>): seq<byte> {
    WordsBytes(AllWords(subs))
  }

  // ----- taking a packet apart -----

  datatype Event =
    | SenderInfo(ssrc: word, msw: word, lsw: word, rtp: word)
    | Feedback(reporter: word, block: Block)      // a report about our own transmission
    | ReportArrived
    | ByeSeen(ssrc: word)
    | AppSeen(subtype: nat, name: word, words: nat)   // the handler is told of so many words after the name

  /** Who is listening: a source, a sink with its SSRC, and the stand-in for receivers that call themselves 1. */
  datatype Listener = Listener(hasSource: bool, sink: Option<word>, alias: word)

  /** What a subpacket's header said. */
  datatype Seen = Seen(pt: byte, count: nat, words: nat)

  datatype Kind = Unknown | Report | ByeKind | AppKind

  datatype Outcome =
    | Accepted(kind: Kind, ssrc: word)
    | Rejected
    | Overrun           // an APP subpacket is the last: the walk leaves the packet

  datatype Result = Result(outcome: Outcome, seen: seq<Seen>, events: seq<Event>)

  /** What is found after `seen` and `events`. */
  function Onto(seen: seq<Seen>, events: seq<Event>, r: Result): Result {
    Result(r.outcome, seen + r.seen, events + r.events)
  }

  /** What the bits of a header word say. */
  datatype Head = Head(pt: byte, count: nat, words: nat, goodFirst: bool, goodLater: bool)

  /** A first header must be version 2 without padding, SR or RR (or an APP packet); a later one version 2. */
  function HeadOf(hdr: word): Head {
    Head(
      hdr / 0x1_0000 % 256,
      hdr / 0x100_0000 % 32,
      hdr % 0x1_0000,
      hdr / 0x2000_0000 == 4 && (hdr / 0x2_0000 % 128 == 100 || hdr / 0x1_0000 % 256 == PT_APP),
      hdr / 0x4000_0000 == 2)
  }

  function Sender(l: Listener, pt: byte, ssrc: word): word {
    if ssrc == 1 && pt == PT_RR then l.alias else ssrc
  }

  function BlockOf(ws: seq<word>): Block
    requires |ws| == 6
  {
    Block(ws[0], ws[1], ws[2], ws[3], ws[4], ws[5])
  }

  function BlocksOf(ws: seq<word>, n: nat): (r: seq<Block>)
    requires 6 * n <= |ws|
    ensures |r| == n
  {
    seq(n, i requires 0 <= i < n => BlockOf(ws[6 * i..6 * i + 6]))
  }

  function FeedbackEvent(l: Listener, reporter: word, block: Block): seq<Event> {
    if l.sink == Some(block.ssrc) then [Feedback(reporter, block)] else []
  }

  /** What report blocks tell us. */
  function FeedbackOf(l: Listener, reporter: word, blocks: seq<Block>): seq<Event> {
    if blocks == [] then []
      else FeedbackOf(l, reporter, blocks[..|blocks| - 1]) + FeedbackEvent(l, reporter, blocks[|blocks| - 1])
  }

  datatype Inner = Inner(ok: bool, events: seq<Event>)

  /** The report blocks; anything after them is skipped. */
  function Blocks(l: Listener, pt: byte, reporter: word, count: nat, body: seq<word>): Inner {
    if |body| < 6 * count then Inner(false, [])
    else
      var feedback := FeedbackOf(l, reporter, BlocksOf(body, count));
      Inner(true, if pt == PT_RR then feedback + [ReportArrived] else feedback)
  }

  /** A subpacket after its header and SSRC. */
  function Body(l: Listener, pt: byte, reporter: word, count: nat, body: seq<word>): Inner {
    if pt == PT_SR then
      if |body| < 5 then Inner(false, []) else
        var info := if l.hasSource then [SenderInfo(reporter, body[0], body[1], body[2])] else [];
        var inner := Blocks(l, pt, reporter, count, body[5..]);
        Inner(inner.ok, info + inner.events)
    else if pt == PT_RR then Blocks(l, pt, reporter, count, body)
    else if pt == PT_BYE then Inner(true, [ByeSeen(reporter)])
    else if pt == PT_APP then
      if body == [] then Inner(false, []) else Inner(true, [AppSeen(count, body[0], |body|)])
    else Inner(true, [])
  }

  function KindAfter(pt: byte, kind: Kind): Kind {
    if pt == PT_SR || pt == PT_RR then Report
    else if pt == PT_BYE then ByeKind
    else if pt == PT_APP then AppKind
    else kind
  }

  datatype Step =
    | Stop(outcome: Outcome, events: seq<Event>)
    | Pass(next: nat, seen: Seen, events: seq<Event>, reporter: word)

  /** What header words mean. */
  type Reading = word -> Head

  /** The words a subpacket is taken to have: the name of an APP subpacket is skipped without being counted. */
  function Used(seen: Seen): nat {
    1 + seen.words + if seen.pt == PT_APP then 1 else 0
  }

  /** The subpacket at the front of what is left of a packet. */
  function One(l: Listener, read: Reading, ws: seq<word>): (r: Step)
    ensures if r.Pass? then 2 <= r.next <= |ws| && r.next == Used(r.seen) else !r.outcome.Accepted?
  {
    if ws == [] then Stop(Rejected, []) else
      var hdr := read(ws[0]);
      if hdr.words >= |ws| || hdr.words == 0 then Stop(Rejected, [])
      else
        var reporter := Sender(l, hdr.pt, ws[1]);
        var inner := Body(l, hdr.pt, reporter, hdr.count, ws[2..1 + hdr.words]);
        var seen := Seen(hdr.pt, hdr.count, hdr.words);
        if !inner.ok then Stop(Rejected, inner.events)
        else if Used(seen) > |ws| then Stop(Overrun, inner.events)
        else Pass(Used(seen), seen, inner.events, reporter)
  }

  type Stepper = seq<word> -> Step

  ghost predicate Advances(step: Stepper) {
    forall ws :: var r := step(ws);
      if r.Pass? then 2 <= r.next <= |ws| && r.next == Used(r.seen) else !r.outcome.Accepted?
  }

  /** What is left of a packet, from a header that has passed its test; `odd` bytes follow the last whole word. */
  ghost function Walk(step: Stepper, read: Reading, ws: seq<word>, odd: nat, kind: Kind): Result
    requires Advances(step)
    decreases |ws|
  {
    match step(ws)
    case Stop(outcome, events) => Result(outcome, [], events)
    case Pass(next, seen, events, reporter) =>
      var rest := ws[next..];
      Onto([seen], events,
        if rest == [] then Result(if odd == 0 then Accepted(KindAfter(seen.pt, kind), reporter) else Rejected, [], [])
        else if !read(rest[0]).goodLater then Result(Rejected, [], [])
        else Walk(step, read, rest, odd, KindAfter(seen.pt, kind)))
  }

  ghost predicate Steps(step: Stepper, l: Listener, read: Reading) {
    forall ws {:trigger One(l, read, ws)} :: step(ws) == One(l, read, ws)
  }

  function OneBy(l: Listener, read: Reading): Stepper {
    (ws: seq<word>) => One(l, read, ws)
  }

  ghost function ProcessWords(l: Listener, read: Reading, ws: seq<word>, odd: nat): Result {
    if ws == [] || !read(ws[0]).goodFirst then Result(Rejected, [], [])
    else Walk(OneBy(l, read), read, ws, odd, Unknown)
  }

  /** An incoming packet; it is only ever read a whole word at a time. */
  ghost function Process(l: Listener, b: seq<byte>): Result {
    ProcessWords(l, HeadOf, Pack(b), |b| % 4)
  }

  /** The words covered by the lengths in the headers, and one more for each APP subpacket. */
  function Extent(seen: seq<Seen>): nat {
    if seen == [] then 0 else Used(seen[0]) + Extent(seen[1..])
  }

  lemma {:induction false} WalkTiles(step: Stepper, read: Reading, ws: seq<word>, odd: nat, kind: Kind)
    requires Advances(step) && Walk(step, read, ws, odd, kind).outcome.Accepted?
    ensures Extent(Walk(step, read, ws, odd, kind).seen) == |ws| && odd == 0
    decreases |ws|
  {
    var one := step(ws);
    var rest := ws[one.next..];
    if rest != [] {
      var k := KindAfter(one.seen.pt, kind);
      WalkTiles(step, read, rest, odd, k);
      assert Walk(step, read, ws, odd, kind).seen[1..] == Walk(step, read, rest, odd, k).seen;
    }
  }

  /** An accepted packet is used up to the last byte by the lengths in its headers. */
  lemma AcceptedTiles(l: Listener, b: seq<byte>)
    requires Process(l, b).outcome.Accepted?
    ensures 4 * Extent(Process(l, b).seen) == |b|
  {
    WalkTiles(OneBy(l, HeadOf), HeadOf, Pack(b), |b| % 4, Unknown);
  }

  // ----- what is put together is taken apart -----

  /** A subpacket whose header can say what it holds. */
  predicate Sound(s: Subpacket) { Reports(s) ==> |s.blocks| < 32 }

  function SeenOf(s: Subpacket): Seen {
    match s
    case SenderReport(_, _, _, _, _, _, blocks) => Seen(PT_SR, |blocks|, 6 + 6 * |blocks|)
    case ReceiverReport(_, blocks) => Seen(PT_RR, |blocks|, 1 + 6 * |blocks|)
    case Description(_, item) => Seen(PT_SDES, 1, (|item| + 8) / 4)
    case Bye(_) => Seen(PT_BYE, 1, 1)
  }

  function EventsOf(l: Listener, s: Subpacket): seq<Event> {
    match s
    case SenderReport(ssrc, msw, lsw, rtp, _, _, blocks) =>
      (if l.hasSource then [SenderInfo(ssrc, msw, lsw, rtp)] else []) + FeedbackOf(l, ssrc, blocks)
    case ReceiverReport(ssrc, blocks) => FeedbackOf(l, Sender(l, PT_RR, ssrc), blocks) + [ReportArrived]
    case Description(_, _) => []
    case Bye(ssrc) => [ByeSeen(ssrc)]
  }

  /** Everything said in a list of subpackets. */
  function Understood(l: Listener, subs: seq<Subpacket>, kind: Kind): Result
    requires subs != []
  {
    var s := subs[0];
    var pt := SeenOf(s).pt;
    Onto([SeenOf(s)], EventsOf(l, s),
      if |subs| == 1 then Result(Accepted(KindAfter(pt, kind), Sender(l, pt, s.ssrc)), [], [])
      else Understood(l, subs[1..], KindAfter(pt, kind)))
  }

  lemma HeaderBack(count: nat, pt: byte, words: nat)
    requires count <= 32 && words < 0x1_0000
    ensures var first := count < 32 && (pt == PT_SR || pt == PT_RR || pt == PT_APP);
            HeadOf(Header(count, pt, words)) == Head(pt, count % 32, words, first, true)
  {
    var h := Header(count, pt, words);
    assert h / 0x1_0000 == 0x8000 + 0x100 * count + pt;
    assert h / 0x100_0000 == 0x80 + count;
    assert h / 0x2_0000 == (0x8000 + 0x100 * count + pt) / 2;
    assert (0x8000 + 0x100 * count + pt) / 2 == 0x4000 + 0x80 * count + pt / 2;
    assert h / 0x2000_0000 == (0x80 + count) / 32;
    assert h / 0x4000_0000 == (0x80 + count) / 64;
  }

  lemma HeaderOfBack(s: Subpacket)
    ensures HeadOf(HeaderOf(s)) == Head(TypeOf(s), CountIn(s) % 32, WordsIn(s), Reports(s) && |s.blocks| < 32, true)
  {
    HeaderBack(CountIn(s), TypeOf(s), WordsIn(s));
  }

  /** The header of a sound subpacket says what is in it. */
  lemma HeaderTells(s: Subpacket)
    requires Sound(s)
    ensures SeenOf(s) == Seen(TypeOf(s), CountIn(s) % 32, WordsIn(s)) && |Words(s)| == 1 + WordsIn(s) && WordsIn(s) >= 1
  {
  }

  lemma {:induction false} BlockWordsAt(blocks: seq<Block>, i: nat)
    requires i < |blocks|
    ensures BlocksWords(blocks)[6 * i..6 * i + 6] == BlockWords(blocks[i])
  {
    var n := |blocks| - 1;
    var x, y := BlocksWords(blocks[..n]), BlockWords(blocks[n]);
    if i < n {
      BlockWordsAt(blocks[..n], i);
      assert (x + y)[6 * i..6 * i + 6] == x[6 * i..6 * i + 6];
    } else {
      assert (x + y)[6 * i..6 * i + 6] == y;
    }
  }

  lemma BlocksBack(blocks: seq<Block>)
    ensures BlocksOf(BlocksWords(blocks), |blocks|) == blocks
  {
    var back := BlocksOf(BlocksWords(blocks), |blocks|);
    forall i | 0 <= i < |blocks|
      ensures back[i] == blocks[i]
    {
      BlockBack(blocks, BlocksWords(blocks), i);
    }
  }

  lemma BlockBack(blocks: seq<Block>, ws: seq<word>, i: nat)
    requires i < |blocks| && ws == BlocksWords(blocks)
    ensures BlocksOf(ws, |blocks|)[i] == blocks[i]
  {
    BlockWordsAt(blocks, i);
    assert BlocksOf(ws, |blocks|)[i] == BlockOf(ws[6 * i..6 * i + 6]);
  }

  lemma BlocksUnderstood(l: Listener, pt: byte, reporter: word, blocks: seq<Block>)
    ensures var feedback := FeedbackOf(l, reporter, blocks);
            Blocks(l, pt, reporter, |blocks|, BlocksWords(blocks))
              == Inner(true, if pt == PT_RR then feedback + [ReportArrived] else feedback)
  {
    BlocksBack(blocks);
  }

  lemma BodyBack(l: Listener, s: Subpacket)
    requires Sound(s)
    ensures Body(l, SeenOf(s).pt, Sender(l, SeenOf(s).pt, s.ssrc), SeenOf(s).count, Payload(s))
            == Inner(true, EventsOf(l, s))
  {
    match s
    case SenderReport(ssrc, msw, lsw, rtp, packets, octets, blocks) =>
      BlocksUnderstood(l, PT_SR, ssrc, blocks);
      assert Payload(s)[5..] == BlocksWords(blocks);
    case ReceiverReport(ssrc, blocks) =>
      BlocksUnderstood(l, PT_RR, Sender(l, PT_RR, ssrc), blocks);
    case Description(ssrc, item) =>
    case Bye(ssrc) =>
  }

  /** `read` takes the headers of `subs` for what they are. */
  ghost predicate Reads(read: Reading, subs: seq<Subpacket>) {
    forall s <- subs ::
      read(HeaderOf(s)) == Head(TypeOf(s), CountIn(s) % 32, WordsIn(s), Reports(s) && |s.blocks| < 32, true)
  }

  lemma OneBack(l: Listener, read: Reading, s: Subpacket, rest: seq<word>)
    requires Sound(s) && Reads(read, [s])
    ensures One(l, read, Words(s) + rest) == Pass(|Words(s)|, SeenOf(s), EventsOf(l, s),
            Sender(l, SeenOf(s).pt, s.ssrc))
  {
    HeaderTells(s);
    BodyBack(l, s);
    assert s in [s];
    var ws := Words(s) + rest;
    assert ws[0] == HeaderOf(s) && ws[1] == s.ssrc;
    assert ws[2..1 + WordsIn(s)] == Payload(s);
  }

  ghost predicate Takes(step: Stepper, l: Listener, subs: seq<Subpacket>) {
    forall s <- subs, rest: seq<word> ::
      step(Words(s) + rest) == Pass(|Words(s)|, SeenOf(s), EventsOf(l, s), Sender(l, SeenOf(s).pt, s.ssrc))
  }

  lemma {:induction false} WalkBack(step: Stepper, l: Listener, read: Reading, subs: seq<Subpacket>, kind: Kind)
    requires subs != [] && Advances(step) && Takes(step, l, subs) && Reads(read, subs)
    ensures Walk(step, read, AllWords(subs), 0, kind) == Understood(l, subs, kind)
  {
    var s, rest := subs[0], subs[1..];
    assert s in subs;
    AllWordsFirst(subs);
    assert AllWords(subs)[|Words(s)|..] == AllWords(rest);
    assert step(Words(s) + AllWords(rest)).next == |Words(s)|;
    if rest != [] {
      assert rest[0] in subs;
      WalkBack(step, l, read, rest, KindAfter(SeenOf(s).pt, kind));
    }
  }

  lemma EncodePacks(subs: seq<Subpacket>)
    ensures Pack(Encode(subs)) == AllWords(subs) && |Encode(subs)| % 4 == 0
    ensures Reads(HeadOf, subs)
  {
    PackWords(AllWords(subs));
    forall s <- subs
      ensures HeadOf(HeaderOf(s)) == Head(TypeOf(s), CountIn(s) % 32, WordsIn(s), Reports(s) && |s.blocks| < 32, true)
    {
      HeaderOfBack(s);
    }
  }

  /**
   A packet put together from subpackets is rejected at once unless it begins with a
   report of fewer than 32 blocks.
   */
  lemma FirstDecides(l: Listener, subs: seq<Subpacket>)
    requires subs != [] && !(Reports(subs[0]) && |subs[0].blocks| < 32)
    ensures Process(l, Encode(subs)) == Result(Rejected, [], [])
  {
    EncodePacks(subs);
    AllWordsFirst(subs);
    assert subs[0] in subs;
  }

  /** If it does, and all reports hold fewer than 32 blocks, everything in it is understood as it was meant. */
  lemma Understanding(l: Listener, subs: seq<Subpacket>)
    requires subs != [] && Reports(subs[0]) && forall s <- subs :: Sound(s)
    ensures Process(l, Encode(subs)) == Understood(l, subs, Unknown)
  {
    EncodePacks(subs);
    AllWordsFirst(subs);
    assert subs[0] in subs;
    AllTaken(l, subs);
    WalkBack(OneBy(l, HeadOf), l, HeadOf, subs, Unknown);
  }

  // ----- what follows subpackets that are understood -----

  /** Subpackets that are understood, and then what comes after them. */
  function Preceded(l: Listener, subs: seq<Subpacket>, r: Result): Result {
    if subs == [] then r else Onto([SeenOf(subs[0])], EventsOf(l, subs[0]), Preceded(l, subs[1..], r))
  }

  function KindOfAll(subs: seq<Subpacket>, kind: Kind): Kind {
    if subs == [] then kind else KindOfAll(subs[1..], KindAfter(SeenOf(subs[0]).pt, kind))
  }

  lemma {:induction false} WalkPast(step: Stepper, l: Listener, read: Reading, subs: seq<Subpacket>, tail: seq<word>,
    kind: Kind)
    requires Advances(step) && Takes(step, l, subs) && Reads(read, subs)
    requires tail != [] && read(tail[0]).goodLater
    ensures Walk(step, read, AllWords(subs) + tail, 0, kind)
         == Preceded(l, subs, Walk(step, read, tail, 0, KindOfAll(subs, kind)))
  {
    if subs == [] {
      assert AllWords(subs) + tail == tail;
    } else {
      var s, rest := subs[0], subs[1..];
      assert s in subs;
      AllWordsFirst(subs);
      var more := AllWords(rest) + tail;
      Regrouped(Words(s), AllWords(rest), tail);
      if rest == [] {
        assert more == tail;
      } else {
        AllWordsFirst(rest);
        assert rest[0] in subs;
      }
      WalkOne(step, l, read, s, more, kind);
      WalkPast(step, l, read, rest, tail, KindAfter(SeenOf(s).pt, kind));
    }
  }

  lemma WalkOne(step: Stepper, l: Listener, read: Reading, s: Subpacket, more: seq<word>, kind: Kind)
    requires Advances(step) && more != [] && read(more[0]).goodLater
    requires step(Words(s) + more) == Pass(|Words(s)|, SeenOf(s), EventsOf(l, s), Sender(l, SeenOf(s).pt, s.ssrc))
    ensures Walk(step, read, Words(s) + more, 0, kind)
         == Onto([SeenOf(s)], EventsOf(l, s), Walk(step, read, more, 0, KindAfter(SeenOf(s).pt, kind)))
  {
    assert (Words(s) + more)[|Words(s)|..] == more;
  }

  /** Sound subpackets are taken for what they are by `HeadOf`. */
  lemma AllTaken(l: Listener, subs: seq<Subpacket>)
    requires forall s <- subs :: Sound(s)
    ensures Takes(OneBy(l, HeadOf), l, subs) && Reads(HeadOf, subs)
  {
    EncodePacks(subs);
    forall s <- subs, rest: seq<word>
      ensures OneBy(l, HeadOf)(Words(s) + rest) == Pass(|Words(s)|, SeenOf(s), EventsOf(l, s),
              Sender(l, SeenOf(s).pt, s.ssrc))
    {
      OneBack(l, HeadOf, s, rest);
    }
  }

  /** After sound subpackets that begin with a report, or after none, the walk is at what follows. */
  lemma ProcessPast(l: Listener, subs: seq<Subpacket>, tail: seq<word>)
    requires (forall s <- subs :: Sound(s)) && tail != [] && HeadOf(tail[0]).goodLater
    requires if subs == [] then HeadOf(tail[0]).goodFirst else Reports(subs[0])
    ensures ProcessWords(l, HeadOf, AllWords(subs) + tail, 0)
         == Preceded(l, subs, Walk(OneBy(l, HeadOf), HeadOf, tail, 0, KindOfAll(subs, Unknown)))
  {
    AllTaken(l, subs);
    WalkPast(OneBy(l, HeadOf), l, HeadOf, subs, tail, Unknown);
    if subs == [] {
      assert AllWords(subs) + tail == tail;
    } else {
      AllWordsFirst(subs);
      FirstWord(Words(subs[0]), AllWords(subs[1..]), tail);
      assert subs[0] in subs;
    }
  }

  lemma FirstWord(x: seq<word>, y: seq<word>, z: seq<word>)
    requires x != []
    ensures (x + y + z)[0] == x[0]
  {
  }

  lemma ProcessOfWords(l: Listener, ws: seq<word>)
    ensures Process(l, WordsBytes(ws)) == ProcessWords(l, HeadOf, ws, 0)
  {
    PackWords(ws);
  }

  /**
   An APP subpacket that ends a packet takes the walk out of it, although there
   is nothing wrong with it, whatever sound subpackets come before.
   */
  lemma AppOverruns(l: Listener, subs: seq<Subpacket>, subtype: nat, ssrc: word, name: word, data: seq<word>)
    requires (forall s <- subs :: Sound(s)) && (subs != [] ==> Reports(subs[0])) && subtype < 32 && |data| < 0xFFFE
    ensures var app := [Header(subtype, PT_APP, 2 + |data|), ssrc, name] + data;
            Process(l, WordsBytes(AllWords(subs) + app))
            == Preceded(l, subs, Result(Overrun, [], [AppSeen(subtype, name, 1 + |data|)]))
  {
    var app := [Header(subtype, PT_APP, 2 + |data|), ssrc, name] + data;
    HeaderBack(subtype, PT_APP, 2 + |data|);
    AppAfter(l, subs, app, subtype, |data|);
  }

  lemma AppAfter(l: Listener, subs: seq<Subpacket>, app: seq<word>, subtype: nat, n: nat)
    requires (forall s <- subs :: Sound(s)) && (subs != [] ==> Reports(subs[0]))
    requires |app| == 3 + n && HeadOf(app[0]) == Head(PT_APP, subtype, 2 + n, true, true)
    ensures Process(l, WordsBytes(AllWords(subs) + app))
            == Preceded(l, subs, Result(Overrun, [], [AppSeen(subtype, app[2], 1 + n)]))
  {
    ProcessPast(l, subs, app);
    AppAlone(l, HeadOf, app, subtype, n, KindOfAll(subs, Unknown));
    ProcessOfWords(l, AllWords(subs) + app);
  }

  lemma AppAlone(l: Listener, read: Reading, ws: seq<word>, subtype: nat, n: nat, kind: Kind)
    requires |ws| == 3 + n && read(ws[0]) == Head(PT_APP, subtype, 2 + n, true, true)
    ensures Walk(OneBy(l, read), read, ws, 0, kind) == Result(Overrun, [], [AppSeen(subtype, ws[2], 1 + n)])
  {
    assert ws[2..3 + n][0] == ws[2];
    assert OneBy(l, read)(ws) == One(l, read, ws) == Stop(Overrun, [AppSeen(subtype, ws[2], 1 + n)]);
  }

  // ----- packets that are cut off -----

  /** A packet that ends within a subpacket is rejected there; one that ends between two is taken for whole. */
  lemma CutOff(l: Listener, subs: seq<Subpacket>, k: nat, m: nat)
    requires subs != [] && Reports(subs[0]) && forall s <- subs :: Sound(s)
    requires k < |subs| && m < |Words(subs[k])| && (k > 0 || m > 0)
    ensures Process(l, WordsBytes(AllWords(subs[..k]) + Words(subs[k])[..m]))
         == if m == 0 then Understood(l, subs[..k], Unknown) else Preceded(l, subs[..k], Result(Rejected, [], []))
  {
    var tail := Words(subs[k])[..m];
    ProcessOfWords(l, AllWords(subs[..k]) + tail);
    if m == 0 {
      assert AllWords(subs[..k]) + tail == AllWords(subs[..k]);
      Understanding(l, subs[..k]);
    } else {
      assert subs[k] in subs;
      HeaderOfBack(subs[k]);
      HeaderTells(subs[k]);
      ProcessPast(l, subs[..k], tail);
      assert OneBy(l, HeadOf)(tail) == One(l, HeadOf, tail) == Stop(Rejected, []);
    }
  }

  /** Where the first `n` words of a packet end: after so many subpackets, and so many words of the next. */
  lemma {:induction false} CutAt(subs: seq<Subpacket>, n: nat) returns (k: nat, m: nat)
    requires n < |AllWords(subs)|
    ensures k < |subs| && m < |Words(subs[k])| && AllWords(subs)[..n] == AllWords(subs[..k]) + Words(subs[k])[..m]
  {
    AllWordsFirst(subs);
    var first := Words(subs[0]);
    if n < |first| {
      k, m := 0, n;
      assert subs[..0] == [];
    } else {
      k, m := CutAt(subs[1..], n - |first|);
      AllWordsFirst(subs[..k + 1]);
      assert subs[..k + 1][1..] == subs[1..][..k];
      assert AllWords(subs)[..n] == first + AllWords(subs[1..])[..n - |first|];
      k := k + 1;
    }
  }

  /**
   However short it is cut, a packet that does not begin with a report of fewer than 32
   blocks is rejected at once.
   */
  lemma FirstDecidesCut(l: Listener, subs: seq<Subpacket>, n: nat)
    requires subs != [] && !(Reports(subs[0]) && |subs[0].blocks| < 32) && 0 < n <= |AllWords(subs)|
    ensures Process(l, WordsBytes(AllWords(subs)[..n])) == Result(Rejected, [], [])
  {
    ProcessOfWords(l, AllWords(subs)[..n]);
    AllWordsFirst(subs);
    HeaderOfBack(subs[0]);
  }

  // ----- only sound and whole packets are understood -----

  /** No header says that it counts more than 31. */
  ghost predicate FewCounted(seen: seq<Seen>) {
    forall s <- seen :: s.count < 32
  }

  lemma {:induction false} WalkCounts(step: Stepper, read: Reading, ws: seq<word>, odd: nat, kind: Kind)
    requires Advances(step) && forall x :: step(x).Pass? ==> step(x).seen.count < 32
    ensures FewCounted(Walk(step, read, ws, odd, kind).seen)
    decreases |ws|
  {
    var one := step(ws);
    if one.Pass? {
      var rest := ws[one.next..];
      if rest != [] {
        WalkCounts(step, read, rest, odd, KindAfter(one.seen.pt, kind));
      }
    }
  }

  lemma ProcessCounts(l: Listener, b: seq<byte>)
    ensures FewCounted(Process(l, b).seen)
  {
    WalkCounts(OneBy(l, HeadOf), HeadOf, Pack(b), |b| % 4, Unknown);
  }

  /** What is seen of subpackets that are understood. */
  lemma {:induction false} UnderstoodSeen(l: Listener, subs: seq<Subpacket>, kind: Kind)
    requires subs != []
    ensures var r := Understood(l, subs, kind);
            r.outcome.Accepted? && |r.seen| == |subs| && forall i | 0 <= i < |subs| :: r.seen[i] == SeenOf(subs[i])
  {
    if |subs| > 1 {
      UnderstoodSeen(l, subs[1..], KindAfter(SeenOf(subs[0]).pt, kind));
    }
  }

  lemma {:induction false} SeenExtent(subs: seq<Subpacket>, seen: seq<Seen>)
    requires |seen| == |subs| && (forall i | 0 <= i < |subs| :: seen[i] == SeenOf(subs[i]))
    requires forall s <- subs :: Sound(s)
    ensures Extent(seen) == |AllWords(subs)|
  {
    if subs != [] {
      AllWordsFirst(subs);
      assert subs[0] in subs;
      HeaderTells(subs[0]);
      SeenExtent(subs[1..], seen[1..]);
    }
  }

  /**
   The first `n` words of a packet that begins with a report are understood
   word for word if and only if that is all of it and every report in it has
   fewer than 32 blocks.
   */
  lemma UnderstoodIff(l: Listener, subs: seq<Subpacket>, n: nat)
    requires subs != [] && Reports(subs[0]) && n <= |AllWords(subs)|
    ensures Process(l, WordsBytes(AllWords(subs)[..n])) == Understood(l, subs, Unknown)
       <==> (forall s <- subs :: Sound(s)) && n == |AllWords(subs)|
  {
    var b := WordsBytes(AllWords(subs)[..n]);
    if (forall s <- subs :: Sound(s)) && n == |AllWords(subs)| {
      assert AllWords(subs)[..n] == AllWords(subs);
      Understanding(l, subs);
    }
    if Process(l, b) == Understood(l, subs, Unknown) {
      UnderstoodSeen(l, subs, Unknown);
      ProcessCounts(l, b);
      AllFew(subs, Process(l, b).seen);
      AcceptedTiles(l, b);
      SeenExtent(subs, Process(l, b).seen);
    }
  }

  lemma AllFew(subs: seq<Subpacket>, seen: seq<Seen>)
    requires |seen| == |subs| && (forall i | 0 <= i < |subs| :: seen[i] == SeenOf(subs[i])) && FewCounted(seen)
    ensures forall s <- subs :: Sound(s)
  {
    forall i | 0 <= i < |subs|
      ensures Sound(subs[i])
    {
      assert seen[i] in seen;
    }
  }

  /** Which blocks are about our own transmission, in order. */
  ghost predicate AboutUs(l: Listener, blocks: seq<Block>, places: seq<nat>) {
    && (forall j | 0 <= j < |places| :: places[j] < |blocks|)
    && (forall i, j | 0 <= i < j < |places| :: places[i] < places[j])
    && (forall k | 0 <= k < |blocks| :: k in places <==> l.sink == Some(blocks[k].ssrc))
  }

  function FeedbackAt(reporter: word, blocks: seq<Block>, places: seq<nat>): seq<Event>
    requires forall j | 0 <= j < |places| :: places[j] < |blocks|
  {
    seq(|places|, j requires 0 <= j < |places| => Feedback(reporter, blocks[places[j]]))
  }

  lemma {:induction false} FeedbackPlaces(l: Listener, reporter: word, blocks: seq<Block>) returns (places: seq<nat>)
    ensures AboutUs(l, blocks, places) && FeedbackOf(l, reporter, blocks) == FeedbackAt(reporter, blocks, places)
  {
    places := [];
    if blocks != [] {
      var n := |blocks| - 1;
      var before := FeedbackPlaces(l, reporter, blocks[..n]);
      places := before;
      if l.sink == Some(blocks[n].ssrc) {
        places := before + [n];
        assert n in places;
      }
      forall k | 0 <= k < |blocks|
        ensures k in places <==> l.sink == Some(blocks[k].ssrc)
      {
        if k < n {
          assert k in before <==> l.sink == Some(blocks[..n][k].ssrc);
        } else {
          assert n !in before;
        }
      }
    }
  }

  /** What a subpacket tells the listener; a receiver that calls itself 1 goes by another name. */
  lemma EventsTold(l: Listener, s: Subpacket) returns (places: seq<nat>)
    ensures Reports(s) ==> AboutUs(l, s.blocks, places)
    ensures s.SenderReport? ==>
              EventsOf(l, s) == (if l.hasSource then [SenderInfo(s.ssrc, s.msw, s.lsw, s.rtp)] else [])
                                + FeedbackAt(s.ssrc, s.blocks, places)
    ensures s.ReceiverReport? ==>
              EventsOf(l, s) == FeedbackAt(if s.ssrc == 1 then l.alias else s.ssrc, s.blocks, places) + [ReportArrived]
    ensures s.Description? ==> EventsOf(l, s) == []
    ensures s.Bye? ==> EventsOf(l, s) == [ByeSeen(s.ssrc)]
  {
    places := [];
    if s.SenderReport? {
      places := FeedbackPlaces(l, s.ssrc, s.blocks);
    } else if s.ReceiverReport? {
      places := FeedbackPlaces(l, if s.ssrc == 1 then l.alias else s.ssrc, s.blocks);
    }
  }

  /** A compound packet counts as sent by its last subpacket. */
  lemma {:induction false} SenderUnderstood(l: Listener, subs: seq<Subpacket>, kind: Kind)
    requires subs != []
    ensures Understood(l, subs, kind).outcome.Accepted?
    ensures var last := subs[|subs| - 1];
            Understood(l, subs, kind).outcome.ssrc
            == if last.ReceiverReport? && last.ssrc == 1 then l.alias else last.ssrc
    decreases |subs|
  {
    if |subs| > 1 {
      SenderUnderstood(l, subs[1..], KindAfter(SeenOf(subs[0]).pt, kind));
    }
  }

  /** Descriptions do not change what kind of packet it is, */
  lemma {:induction false} KindOfDescriptions(l: Listener, subs: seq<Subpacket>, kind: Kind)
    requires subs != [] && forall i | 0 <= i < |subs| :: subs[i].Description?
    ensures Understood(l, subs, kind).outcome.Accepted? && Understood(l, subs, kind).outcome.kind == kind
    decreases |subs|
  {
    if |subs| > 1 {
      KindOfDescriptions(l, subs[1..], kind);
    }
  }

  /** and the last subpacket of another kind decides it. */
  lemma {:induction false} KindUnderstood(l: Listener, subs: seq<Subpacket>, kind: Kind, i: nat)
    requires i < |subs| && !subs[i].Description? && forall j | i < j < |subs| :: subs[j].Description?
    ensures Understood(l, subs, kind).outcome.Accepted?
    ensures Understood(l, subs, kind).outcome.kind == if subs[i].Bye? then ByeKind else Report
    decreases |subs|
  {
    if |subs| > 1 {
      var rest, k := subs[1..], KindAfter(SeenOf(subs[0]).pt, kind);
      if i > 0 {
        KindUnderstood(l, rest, k, i - 1);
      } else {
        KindOfDescriptions(l, rest, k);
      }
    }
  }

  // ----- the program -----

  /** Reads one report block, and notes it if it is about our own transmission. */
  method ReportBlock(l: Listener, ws: seq<word>, start: nat, reporter: word) returns (event: seq<Event>)
    requires start + 6 <= |ws|
    ensures event == FeedbackEvent(l, reporter, BlockOf(ws[start..start + 6]))
  {
    var pkt := start;
    var about := ws[pkt];
    pkt := pkt + 1;
    if l.sink == Some(about) {
      var loss, highest, jitter, lastSR, sinceSR := ws[pkt], ws[pkt + 1], ws[pkt + 2], ws[pkt + 3], ws[pkt + 4];
      event := [Feedback(reporter, Block(about, loss, highest, jitter, lastSR, sinceSR))];
    } else {
      event := [];
    }
  }

  method ReportBlocks(l: Listener, ws: seq<word>, start: nat, reporter: word, ghost blocks: seq<Block>, count: nat)
    returns (pkt: nat, events: seq<Event>)
    requires start + 6 * count <= |ws| && |blocks| == count
    requires forall i: nat | i < count :: blocks[i] == BlockOf(ws[start + 6 * i..start + 6 * i + 6])
    ensures pkt == start + 6 * count
    ensures events == FeedbackOf(l, reporter, blocks)
  {
    pkt, events := start, [];
    var i: nat := 0;
    while i < count
      invariant i <= count && pkt == start + 6 * i
      invariant events == FeedbackOf(l, reporter, blocks[..i])
    {
      assert blocks[..i + 1][..i] == blocks[..i];
      var event := ReportBlock(l, ws, pkt, reporter);
      events := events + event;
      pkt := pkt + 6;
      i := i + 1;
    }
    assert blocks[..count] == blocks;
  }

  lemma SliceOfSlice(ws: seq<word>, start: nat, length: nat, a: nat, b: nat)
    requires start + length <= |ws| && a <= b <= length
    ensures ws[start..start + length][a..b] == ws[start + a..start + b]
  {
    var part := ws[start..start + length];
    assert forall k | 0 <= k < length :: part[k] == ws[start + k];
    assert forall k | 0 <= k < b - a :: part[a..b][k] == part[a + k];
    assert part[a..b] == ws[start + a..start + b];
  }

  /** Reads the blocks of a report, `length` words from `start`; `pkt` and `left` say what is not yet read. */
  method ReadReport(l: Listener, ws: seq<word>, start: nat, length: nat, pt: byte, reporter: word, count: nat)
    returns (inner: Inner, pkt: nat, left: nat)
    requires start + length <= |ws|
    ensures inner == Blocks(l, pt, reporter, count, ws[start..start + length])
    ensures inner.ok ==> pkt + left == start + length
  {
    if length < 6 * count {
      return Inner(false, []), start, length;
    }
    left := length - 6 * count;
    ghost var body := ws[start..start + length];
    forall i: nat | i < count
      ensures body[6 * i..6 * i + 6] == ws[start + 6 * i..start + 6 * i + 6]
    {
      SliceOfSlice(ws, start, length, 6 * i, 6 * i + 6);
    }
    var events;
    pkt, events := ReportBlocks(l, ws, start, reporter, BlocksOf(body, count), count);
    if pt == PT_RR {
      events := events + [ReportArrived];
    }
    inner := Inner(true, events);
  }

  /** Reads the rest of a subpacket. The name of an APP subpacket is not taken off its length. */
  method ReadBody(l: Listener, ws: seq<word>, start: nat, length: nat, pt: byte, reporter: word, count: nat)
    returns (inner: Inner, pkt: nat, left: nat)
    requires start + length <= |ws|
    ensures inner == Body(l, pt, reporter, count, ws[start..start + length])
    ensures inner.ok ==> pkt + left == start + length + if pt == PT_APP then 1 else 0
  {
    pkt, left := start, length;
    if pt == PT_SR {
      if left < 5 {
        return Inner(false, []), pkt, left;
      }
      var info := if l.hasSource then [SenderInfo(reporter, ws[pkt], ws[pkt + 1], ws[pkt + 2])] else [];
      assert ws[start..start + length][5..] == ws[start + 5..start + length];
      inner, pkt, left := ReadReport(l, ws, pkt + 5, left - 5, pt, reporter, count);
      inner := Inner(inner.ok, info + inner.events);
    } else if pt == PT_RR {
      inner, pkt, left := ReadReport(l, ws, pkt, left, pt, reporter, count);
    } else if pt == PT_BYE {
      inner := Inner(true, [ByeSeen(reporter)]);
    } else if pt == PT_APP {
      if left < 1 {
        return Inner(false, []), pkt, left;
      }
      inner := Inner(true, [AppSeen(count, ws[pkt], left)]);
      pkt := pkt + 1;
    } else {
      inner := Inner(true, []);
    }
  }

  /** The same step, counted from the start of the packet. */
  function From(at: nat, r: Step): Step {
    if r.Pass? then r.(next := at + r.next) else r
  }

  /** Goes through one subpacket. */
  method ReadSubpacket(l: Listener, ws: seq<word>, at: nat, hdr: Head, ghost read: Reading, ghost step: Stepper)
    returns (r: Step)
    requires at < |ws| && hdr == read(ws[at]) && Steps(step, l, read)
    ensures r == From(at, step(ws[at..]))
  {
    ghost var rest := ws[at..];
    assert step(rest) == One(l, read, rest);
    var length := hdr.words;
    var pkt, packetSize := at + 1, |ws| - at - 1;
    if length > packetSize || length < 1 {
      return Stop(Rejected, []);
    }
    length := length - 1;
    var ssrc := ws[pkt];
    pkt, packetSize := pkt + 1, packetSize - 1;
    var reporter := Sender(l, hdr.pt, ssrc);
    assert rest[2..1 + hdr.words] == ws[pkt..pkt + length];
    var inner, left;
    inner, pkt, left := ReadBody(l, ws, pkt, length, hdr.pt, reporter, hdr.count);
    if !inner.ok {
      return Stop(Rejected, inner.events);
    }
    if pkt + left > |ws| {
      return Stop(Overrun, inner.events);
    }
    return Pass(pkt + left, Seen(hdr.pt, hdr.count, hdr.words), inner.events, reporter);
  }

  /** Goes through the subpackets of an incoming packet, given as its whole words and the number of bytes after them. */
  method ProcessIncomingReport(l: Listener, ws: seq<word>, odd: nat) returns (r: Result)
    ensures r == ProcessWords(l, HeadOf, ws, odd)
  {
    if ws == [] {
      return Result(Rejected, [], []);
    }
    var hdr := HeadOf(ws[0]);
    if !hdr.goodFirst {
      return Result(Rejected, [], []);
    }
    var step := OneBy(l, HeadOf);
    r := WalkSubpackets(l, ws, odd, HeadOf, step, (rest, kind) => Walk(step, HeadOf, rest, odd, kind));
    assert ws[0..] == ws;
  }

  /** What is left of a packet, from a header that has passed its test. */
  type Walker = (seq<word>, Kind) -> Result

  ghost predicate Walks(walk: Walker, step: Stepper, read: Reading, odd: nat) {
    && Advances(step)
    && forall ws, kind {:trigger Walk(step, read, ws, odd, kind)} :: walk(ws, kind) == Walk(step, read, ws, odd, kind)
  }

  method WalkSubpackets(l: Listener, ws: seq<word>, odd: nat, read: Reading, ghost step: Stepper, ghost walk: Walker)
    returns (r: Result)
    requires ws != [] && Steps(step, l, read) && Walks(walk, step, read, odd)
    ensures r == walk(ws[0..], Unknown)
  {
    var pkt: nat, kind, hdr := 0, Unknown, read(ws[0]);
    var seen: seq<Seen>, events: seq<Event> := [], [];
    ghost var left := walk(ws[0..], Unknown);
    OntoNothing(left);
    while true
      invariant pkt < |ws| && hdr == read(ws[pkt])
      invariant left == walk(ws[pkt..], kind) && walk(ws[0..], Unknown) == Onto(seen, events, left)
      decreases |ws| - pkt
    {
      ghost var rest := ws[pkt..];
      WalkStep(walk, step, read, rest, odd, kind);
      assert step(rest) == One(l, read, rest);
      var one := ReadSubpacket(l, ws, pkt, hdr, read, step);
      if one.Stop? {
        OntoStop(seen, events, one.outcome, one.events);
        return Result(one.outcome, seen, events + one.events);
      }
      SuffixOfSuffix(ws, pkt, one.next);
      kind := KindAfter(one.seen.pt, kind);
      pkt := one.next;
      left := After(walk, read, ws[pkt..], odd, kind, one.reporter);
      OntoMore(seen, events, one.seen, one.events, left);
      seen, events := seen + [one.seen], events + one.events;
      OntoStop(seen, events, left.outcome, []);
      if pkt == |ws| {
        return Result(if odd == 0 then Accepted(kind, one.reporter) else Rejected, seen, events);
      }
      hdr := read(ws[pkt]);
      if !hdr.goodLater {
        return Result(Rejected, seen, events);
      }
    }
  }

  lemma SuffixOfSuffix(ws: seq<word>, i: nat, j: nat)
    requires i <= j <= |ws|
    ensures ws[i..][j - i..] == ws[j..]
  {
  }

  /** What follows a good subpacket. */
  ghost function After(walk: Walker, read: Reading, rest: seq<word>, odd: nat, kind: Kind, reporter: word): Result {
    if rest == [] then Result(if odd == 0 then Accepted(kind, reporter) else Rejected, [], [])
    else if !read(rest[0]).goodLater then Result(Rejected, [], [])
    else walk(rest, kind)
  }

  lemma WalkStep(walk: Walker, step: Stepper, read: Reading, ws: seq<word>, odd: nat, kind: Kind)
    requires Walks(walk, step, read, odd)
    ensures step(ws).Stop? ==> walk(ws, kind) == Result(step(ws).outcome, [], step(ws).events)
    ensures step(ws).Pass? ==>
      var Pass(next, seen, events, reporter) := step(ws);
      walk(ws, kind) == Onto([seen], events, After(walk, read, ws[next..], odd, KindAfter(seen.pt, kind), reporter))
  {
    assert walk(ws, kind) == Walk(step, read, ws, odd, kind);
    if step(ws).Pass? {
      var k, rest := KindAfter(step(ws).seen.pt, kind), ws[step(ws).next..];
      assert walk(rest, k) == Walk(step, read, rest, odd, k);
    }
  }

  lemma OntoNothing(r: Result)
    ensures Onto([], [], r) == r
  {
  }

  lemma OntoMore(seen: seq<Seen>, events: seq<Event>, next: Seen, more: seq<Event>, r: Result)
    ensures Onto(seen, events, Onto([next], more, r)) == Onto(seen + [next], events + more, r)
  {
  }

  lemma OntoStop(seen: seq<Seen>, events: seq<Event>, outcome: Outcome, more: seq<Event>)
    ensures Onto(seen, events, Result(outcome, [], more)) == Result(outcome, seen, events + more)
    ensures more == [] ==> events + more == events
  {
  }
}
