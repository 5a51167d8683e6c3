/**
 The reporting side of an RTCP session: reports and BYEs are put together in
 an output buffer from the session's own tables, and members that have gone
 quiet are forgotten.
 */
module RtcpReport {
  import opened Wrappers
  import opened Octets
  import opened Reception
  import opened RtcpPacket
  import opened RtcpMembers

  /** IP and UDP headers count towards the size of a packet. */
  const IP_UDP_HDR_SIZE := 28

  /** Largest packet that may be sent. */
  const MAX_PACKET: nat := 1456

  // ----- what a report should say -----

  /** The middle 32 bits of an NTP time. */
  function Middle(msw: word, lsw: word): word {
    msw % 0x1_0000 * 0x1_0000 + lsw / 0x1_0000
  }

  /** Unsigned arithmetic in 32 bits, and such a number taken as a signed one. */
  function Wrapped(x: int): word { x % 0x1_0000_0000 }

  function Signed(x: word): int { if x < 0x8000_0000 then x else x - 0x1_0000_0000 }

  /** Packets expected but not received, since the first and since the last report. */
  function TotalLost(s: Stats): int {
    Signed(Wrapped(s.highest - s.base - s.total))
  }

  function ExpectedSince(s: Stats): word {
    Wrapped(s.highest - s.lastReset)
  }

  function LostSince(s: Stats): int {
    Signed(Wrapped(s.highest - s.lastReset - s.sinceReset))
  }

  /** The nearest number of 24 bits, with a sign. */
  function Clamp24(n: int): int {
    if n > 0x7F_FFFF then 0x7F_FFFF else if n < -0x80_0000 then -0x80_0000 else n
  }

  /** The share of packets lost since the last report, in 256ths. */
  function LossFraction(s: Stats): byte {
    if ExpectedSince(s) == 0 || LostSince(s) < 0 then 0
    else Wrapped(256 * LostSince(s)) / ExpectedSince(s) % 256
  }

  /** The fraction, then the total as a number of 24 bits. */
  function LossWord(s: Stats): word {
    LossFraction(s) * 0x100_0000 + Clamp24(TotalLost(s)) % 0x100_0000
  }

  /** What was put into a loss word is found in it. */
  lemma LossBack(s: Stats)
    ensures LossWord(s) / 0x100_0000 == LossFraction(s)
    ensures var low := LossWord(s) % 0x100_0000;
            (if low < 0x80_0000 then low else low - 0x100_0000) == Clamp24(TotalLost(s))
  {
    var n := Clamp24(TotalLost(s));
    Parts(LossFraction(s), n % 0x100_0000);
    TwosComplement(n);
  }

  lemma TwosComplement(n: int)
    requires -0x80_0000 <= n <= 0x7F_FFFF
    ensures n % 0x100_0000 == if n < 0 then n + 0x100_0000 else n
  {
  }

  lemma Parts(high: nat, low: nat)
    requires low < 0x100_0000
    ensures (high * 0x100_0000 + low) / 0x100_0000 == high && (high * 0x100_0000 + low) % 0x100_0000 == low
  {
  }

  /**
   The fraction is rounded down and does not overflow its byte, because sources from
   which nothing came are not reported on.
   */
  lemma FractionExact(s: Stats)
    requires s.sinceReset > 0 && 0 <= s.highest - s.lastReset - s.sinceReset < 0x80_0000
    ensures var f, expected := LossFraction(s), s.highest - s.lastReset;
            f * expected <= 256 * (expected - s.sinceReset) < (f + 1) * expected
  {
    var expected := s.highest - s.lastReset;
    var lost := expected - s.sinceReset;
    NotWrapped(expected);
    NotWrapped(lost);
    NotWrapped(256 * lost);
    ShareInByte(lost, expected);
  }

  lemma NotWrapped(x: nat)
    requires x < 0x1_0000_0000
    ensures Wrapped(x) == x
  {
  }

  lemma ShareInByte(lost: nat, expected: nat)
    requires lost < expected
    ensures var f := 256 * lost / expected % 256; f * expected <= 256 * lost < (f + 1) * expected
  {
    var q := 256 * lost / expected;
    ShareRounded(256 * lost, expected);
    if q >= 256 {
      ShareTooLarge(q, expected);
    }
    SmallByte(q);
  }

  lemma SmallByte(q: nat)
    ensures q < 256 ==> q % 256 == q
  {
  }

  lemma ShareRounded(x: nat, n: nat)
    requires n > 0
    ensures x / n * n <= x < (x / n + 1) * n
  {
  }

  lemma ShareTooLarge(q: nat, n: nat)
    requires q >= 256
    ensures q * n >= 256 * n
  {
  }

  /** A block speaks about one source, from that source's record. */
  ghost predicate Tells(b: Block, t: Table) {
    b.ssrc in t && TellsOf(b, t[b.ssrc])
  }

  predicate TellsOf(b: Block, s: Stats) {
    b.loss == LossWord(s) && b.highest == s.highest && b.lastSR == Middle(s.srMsw, s.srLsw)
  }

  /** One block for each of `sources` and no other. */
  ghost predicate Covers(blocks: seq<Block>, t: Table, sources: set<word>) {
    && |blocks| == |sources|
    && (forall b <- blocks :: b.ssrc in sources && Tells(b, t))
    && (forall s <- sources :: exists b <- blocks :: b.ssrc == s)
  }

  /**
   What a report says: everything active goes into the first subpacket, and there is
   nothing left to say in the second.
   */
  ghost predicate ReportOf(subs: seq<Subpacket>, sink: Option<word>, source: Option<word>, t: Table) {
    match (sink, source)
    case (None, None) => subs == []
    case (None, Some(s)) => |subs| == 1 && subs[0].ReceiverReport? && subs[0].ssrc == s
      && Covers(subs[0].blocks, t, Active(t))
    case (Some(k), None) => |subs| == 1 && subs[0].SenderReport? && subs[0].ssrc == k && subs[0].blocks == []
    case (Some(k), Some(s)) =>
      && |subs| == 2
      && subs[0].SenderReport? && subs[0].ssrc == k && Covers(subs[0].blocks, t, Active(t))
      && subs[1] == ReceiverReport(s, [])
  }

  /** SSRC that a description or BYE is about. */
  function OwnSsrc(sink: Option<word>, source: Option<word>): word
    requires sink.Some? || source.Some?
  {
    if source.Some? then source.value else sink.value
  }

  /**
   A packet that starts with a fresh report and ends with a description or a
   BYE is accepted by the receiver, word for word, exactly when fewer than 32
   sources are reported on.
   */
  lemma ReportUnderstood(l: Listener, sink: Option<word>, source: Option<word>, t: Table, report: seq<Subpacket>,
    last: Subpacket)
    requires (sink.Some? || source.Some?) && ReportOf(report, sink, source, t) && !Reports(last)
    ensures source.None? || |Active(t)| < 32 ==>
            Process(l, Encode(report + [last])) == Understood(l, report + [last], Unknown)
    ensures source.Some? && |Active(t)| >= 32 ==> Process(l, Encode(report + [last])) == Result(Rejected, [], [])
  {
    var subs := report + [last];
    assert subs[0] == report[0];
    if source.None? || |Active(t)| < 32 {
      Understanding(l, subs);
    } else {
      FirstDecides(l, subs);
    }
  }

  lemma ReportSize(sink: Option<word>, source: Option<word>, t: Table, report: seq<Subpacket>, last: Subpacket)
    requires ReportOf(report, sink, source, t) && (source.None? || |Active(t)| < 32) && !Reports(last)
    ensures |Encode(report + [last])| <= MAX_PACKET
  {
    forall s: Subpacket
      ensures |Words(s)| <= Longest(s)
    {
      WordsLength(s);
    }
    match |report|
    case 0 => Lengths([], last);
    case 1 =>
      Lengths(report, last);
      Lengths([], report[0]);
      assert report == [] + [report[0]];
    case _ =>
      Lengths(report, last);
      Lengths([report[0]], report[1]);
      Lengths([], report[0]);
      assert report == [report[0]] + [report[1]] && [report[0]] == [] + [report[0]];
  }

  /** The words a subpacket takes up at most. */
  function Longest(s: Subpacket): nat {
    if Reports(s) then 7 + 6 * |s.blocks| else 68
  }

  lemma WordsLength(s: Subpacket)
    ensures |Words(s)| <= Longest(s)
  {
  }

  lemma Lengths(subs: seq<Subpacket>, s: Subpacket)
    ensures |AllWords(subs + [s])| == |AllWords(subs)| + |Words(s)| && |AllWords([])| == 0
  {
    AllWordsAppend(subs, s);
  }

  lemma AllWordsAppend(subs: seq<Subpacket>, s: Subpacket)
    ensures AllWords(subs + [s]) == AllWords(subs) + Words(s)
  {
    AllWordsConcat(subs, [s]);
    AllWordsFirst([s]);
    AllWordsEnd(Words(s));
  }

  // ----- the output buffer -----

  /** `bytesOf` puts words in network order, one after the other. */
  ghost predicate Spelt(bytesOf: seq<word> -> seq<byte>) {
    forall ws {:trigger WordsBytes(ws)} :: bytesOf(ws) == WordsBytes(ws)
  }

  lemma ItemPacked(words: seq<word>, item: Item)
    ensures WordsBytes(words + Pack(Padded(item))) == WordsBytes(words) + Padded(item)
  {
    PackBack(Padded(item));
    WordsConcat(words, Pack(Padded(item)));
  }

  /** How much padding is needed depends on the item alone if the buffer holds whole words. */
  lemma ItemPadded(b: seq<byte>, n: nat, item: Item)
    requires |b| == 4 * n
    ensures b + item + Zeros(4 - |b + item| % 4) == b + Padded(item)
  {
  }

  /** A number of 24 bits, in two's complement. */
  method ClampedLoss(lost: int) returns (w: nat)
    ensures w == Clamp24(lost) % 0x100_0000
  {
    var n := lost;
    if n > 0x7F_FFFF {
      n := 0x7F_FFFF;
    } else if n < 0 {
      if n < -0x80_0000 {
        n := 0x80_0000;
      }
      n := n % 0x100_0000;
    }
    w := n;
  }

  /** The loss word of a report block. */
  method ReportedLoss(s: Stats) returns (loss: word)
    ensures loss == LossWord(s)
  {
    var totNumLost := ClampedLoss(Signed(Wrapped(s.highest - s.base - s.total)));
    var expected := Wrapped(s.highest - s.lastReset);
    var lost := Signed(Wrapped(s.highest - s.lastReset - s.sinceReset));
    var lossFraction: byte := 0;
    if expected != 0 && lost >= 0 {
      lossFraction := Wrapped(256 * lost) / expected % 256;
    }
    loss := lossFraction * 0x100_0000 + totNumLost;
  }

  /** What does not fit is dropped. */
  function Fitted(b: seq<byte>): (r: seq<byte>)
    ensures |r| <= MAX_PACKET && r <= b && (|b| <= MAX_PACKET ==> r == b)
  {
    if |b| <= MAX_PACKET then b else b[..MAX_PACKET]
  }

  lemma FittedMore(a: seq<byte>, b: seq<byte>)
    ensures Fitted(Fitted(a) + b) == Fitted(a + b)
  {
  }

  /** An item that is cut off fills the buffer, and no padding matters after it. */
  lemma ItemFitted(b: seq<byte>, n: nat, item: Item)
    requires |b| == 4 * n
    ensures Fitted(Fitted(b + item) + Zeros(4 - |Fitted(b + item)| % 4)) == Fitted(b + Padded(item))
  {
    ItemPadded(b, n, item);
    var x := b + item;
    FittedMore(x, Zeros(4 - |Fitted(x)| % 4));
    assert x + Zeros(4 - |x| % 4) == b + Padded(item);
    if |x| > MAX_PACKET {
      assert (b + Padded(item))[..MAX_PACKET] == x[..MAX_PACKET];
    }
  }

  lemma ItemEnqueued(b: seq<byte>, n: nat, item: Item, x: seq<byte>, padding: nat)
    requires |b| == 4 * n && x == Fitted(Fitted(b) + item) && padding == 4 - |x| % 4
    ensures Fitted(x + Zeros(padding)) == Fitted(b + Padded(item))
  {
    FittedMore(b, item);
    ItemFitted(b, n, item);
  }

  class OutPacketBuffer {
    var packet: seq<byte>
    ghost var words: seq<word>
    ghost const bytesOf: seq<word> -> seq<byte>

    ghost predicate Valid()
      reads this
    {
      packet == Fitted(bytesOf(words)) && Spelt(bytesOf)
    }

    constructor ()
      ensures Valid() && words == []
    {
      packet, words, bytesOf := [], [], WordsBytes;
    }

    /** Bytes are put in as far as there is room for them. */
    method Enqueue(from: seq<byte>)
      requires |packet| <= MAX_PACKET
      modifies this`packet
      ensures packet == Fitted(old(packet) + from)
    {
      var numBytes := |from|;
      if numBytes > MAX_PACKET - |packet| {
        numBytes := MAX_PACKET - |packet|;
      }
      packet := packet + from[..numBytes];
    }

    method EnqueueWord(w: word)
      requires Valid()
      modifies this
      ensures Valid() && words == old(words) + [w]
    {
      WordsConcat(words, [w]);
      assert [w][1..] == [] && WordsBytes([w]) == WordBytes(w);
      FittedMore(WordsBytes(words), WordBytes(w));
      Enqueue(WordBytes(w));
      words := words + [w];
    }

    /** An SDES item, then a zero byte and as many more as it takes to fill the word. */
    method EnqueueItem(item: Item)
      requires Valid()
      modifies this
      ensures Valid() && words == old(words) + Pack(Padded(item))
    {
      ghost var b := WordsBytes(words);
      ghost var all := words + Pack(Padded(item));
      ItemPacked(words, item);
      assert bytesOf(all) == WordsBytes(all) == b + Padded(item);
      Enqueue(item);
      var padding := 4 - |packet| % 4;
      ItemEnqueued(b, |words|, item, packet, padding);
      EnqueueZeros(padding);
      words := all;
    }

    method EnqueueZeros(n: nat)
      requires |packet| <= MAX_PACKET
      modifies this`packet
      ensures packet == Fitted(old(packet) + Zeros(n))
    {
      var padding: nat := n;
      while padding > 0
        invariant padding <= n && packet == Fitted(old(packet) + Zeros(n - padding))
      {
        FittedMore(old(packet) + Zeros(n - padding), [0]);
        assert old(packet) + Zeros(n - padding) + [0] == old(packet) + Zeros(n - padding + 1);
        Enqueue([0]);
        padding := padding - 1;
      }
    }

    method ResetOffset()
      requires Valid()
      modifies this
      ensures Valid() && words == []
    {
      packet, words := [], [];
      assert WordsBytes([]) == [];
    }
  }

  // ----- the session -----

  /** A packet as it went out, and the circumstances under which it was made. */
  datatype Packet = Packet(
    time: real,
    report: bool,       // a report, or else a BYE
    sources: nat,       // active when it was made
    clean: bool,        // nothing was left in the buffer from before
    reports: seq<Subpacket>,
    bytes: seq<byte>) {

    /** It goes out like this, as far as it fits. */
    function Finished(subs: seq<Subpacket>, packet: seq<Subpacket> -> seq<byte>): Packet {
      this.(reports := subs, bytes := Fitted(packet(subs)))
    }
  }

  class RTCPInstance {
    const sink: Option<word>            // SSRC of what we send, if anything
    const source: Option<word>          // our SSRC as a receiver, if we are one
    const db: ReceptionStatsDB          // the source's table
    const members: MemberDatabase
    const out: OutPacketBuffer
    const cname: Item
    var reportCount: nat
    var lastSentSize: nat
    ghost var sent: seq<Packet>         // what has gone out so far
    ghost var pending: seq<Subpacket>   // sender reports put in the buffer before the report was given up

    ghost predicate Valid()
      reads this, db, db.table.Values, members, out
    {
      && db.Valid() && Labelled(db.contents)
      && members.Valid(reportCount) && reportCount >= 1
      && out.Valid() && out.words == AllWords(pending)
      && LeftOver(pending)
    }

    constructor (sinkSsrc: Option<word>, sourceSsrc: Option<word>, name: Item)
      ensures Valid() && fresh(db) && fresh(members) && fresh(out) && fresh(db.table.Values)
      ensures sink == sinkSsrc && source == sourceSsrc && cname == name && sent == [] && pending == []
              && db.contents == map[]
    {
      sink, source, cname := sinkSsrc, sourceSsrc, name;
      db := new ReceptionStatsDB();
      members := new MemberDatabase();
      out := new OutPacketBuffer();
      reportCount, lastSentSize, sent, pending := 1, 0, [], [];
    }

    /** What may be left in the buffer. */
    ghost predicate LeftOver(subs: seq<Subpacket>) {
      forall s <- subs :: s.SenderReport? && sink.Some?
    }

    /** A sender report is put in the buffer, and the report given up after that. */
    predicate LeavesOver(sinkEnabled: bool, preset: bool, sourceEnabled: bool) {
      sink.Some? && sinkEnabled && !preset && source.Some? && !sourceEnabled
    }

    /** An RTP packet has come in. */
    method NoteIncomingPacket(ssrc: word, seqNum: SeqNum)
      requires Valid()
      modifies db, db.table.Values
      ensures Valid() && fresh(db.table.Values - old(db.table.Values))
      ensures db.contents == TableNoted(old(db.contents), ssrc, seqNum)
    {
      LabelledNoted(db.contents, ssrc, seqNum);
      db.NoteIncomingPacket(ssrc, seqNum);
    }

    /** A sender report has come in. */
    method NoteIncomingSR(ssrc: word, msw: word, lsw: word)
      requires Valid()
      modifies db, db.table.Values
      ensures Valid() && fresh(db.table.Values - old(db.table.Values))
      ensures db.contents == TableReported(old(db.contents), ssrc, msw, lsw)
    {
      LabelledReported(db.contents, ssrc, msw, lsw);
      db.NoteIncomingSR(ssrc, msw, lsw);
    }

    method EnqueueReportPrefix(pt: byte, ssrc: word, extraWords: nat)
      requires db.Valid() && out.Valid() && extraWords <= 5
      modifies out
      ensures out.Valid()
      ensures var n := if source.None? then 0 else |Active(db.contents)|;
              out.words == old(out.words) + [ReportHeader(pt, extraWords, n), ssrc]
    {
      var n := 0;
      if source.Some? {
        n := db.numActive;
        if n >= 32 {
          n := 32;
        }
      }
      out.EnqueueWord(Header(n, pt, 1 + extraWords + 6 * n));
      out.EnqueueWord(ssrc);
    }

    method EnqueueReportBlock(stats: ReceptionStats) returns (ghost b: Block)
      requires out.Valid()
      modifies out
      ensures out.Valid() && out.words == old(out.words) + BlockWords(b)
      ensures b.ssrc == stats.now.ssrc && TellsOf(b, stats.now)
    {
      var jitter: word, sinceSR: word := *, *;
      var loss := ReportedLoss(stats.now);
      var lastSR := Middle(stats.now.srMsw, stats.now.srLsw);
      b := Block(stats.now.ssrc, loss, stats.now.highest, jitter, lastSR, sinceSR);
      out.EnqueueWord(stats.now.ssrc);
      out.EnqueueWord(loss);
      out.EnqueueWord(stats.now.highest);
      out.EnqueueWord(jitter);
      out.EnqueueWord(lastSR);
      out.EnqueueWord(sinceSR);
    }

    method EnqueueIfActive(stats: ReceptionStats, ghost t: Table, ghost before: seq<word>, ghost blocks: seq<Block>,
      ghost left: set<word>)
      returns (ghost more: seq<Block>)
      requires var ssrc := stats.now.ssrc; ssrc in t && ssrc in left && stats.now == t[ssrc]
      requires out.Valid() && out.words == before + BlocksWords(blocks) && CoversBut(blocks, t, left)
      modifies out
      ensures out.Valid() && out.words == before + BlocksWords(more)
      ensures CoversBut(more, t, left - {stats.now.ssrc})
    {
      DoneStep(t, left, stats.now.ssrc);
      more := blocks;
      if stats.now.sinceReset > 0 {
        ghost var block := EnqueueReportBlock(stats);
        CoversMore(blocks, t, Active(t) - left, block);
        BlocksWordsMore(before, blocks, block);
        more := blocks + [block];
      }
    }

    /** A block for each active source, in the order of the table, whichever that is. */
    method EnqueueReportBlocks() returns (ghost blocks: seq<Block>)
      requires db.Shape() && Labelled(db.contents) && out.Valid()
      modifies out
      ensures out.Valid() && out.words == old(out.words) + BlocksWords(blocks)
      ensures Covers(blocks, db.contents, Active(db.contents))
    {
      blocks := [];
      var left := db.table.Keys;
      ghost var t, before := db.contents, out.words;
      NoneDone(t);
      while left != {}
        invariant left <= t.Keys && out.Valid() && out.words == before + BlocksWords(blocks)
        invariant CoversBut(blocks, t, left)
      {
        var ssrc :| ssrc in left;
        blocks := EnqueueIfActive(db.table[ssrc], t, before, blocks, left);
        left := left - {ssrc};
      }
      AllDone(blocks, t);
    }

    /** The blocks, after which a new period starts. */
    method EnqueueReportSuffix() returns (ghost blocks: seq<Block>)
      requires db.Valid() && Labelled(db.contents) && out.Valid()
      modifies out, db, db.table.Values
      ensures out.Valid() && out.words == old(out.words) + BlocksWords(blocks)
      ensures db.Valid() && db.table == old(db.table)
      ensures source.Some? ==>
              Covers(blocks, old(db.contents), Active(old(db.contents))) && db.contents == ResetAll(old(db.contents))
      ensures source.None? ==> blocks == [] && db.contents == old(db.contents)
    {
      blocks := [];
      if source.Some? {
        blocks := EnqueueReportBlocks();
        db.Reset();
      }
    }

    method AddSR(msw: word, lsw: word, rtp: word, packets: word, octets: word) returns (ghost s: Subpacket)
      requires db.Valid() && Labelled(db.contents) && out.Valid() && sink.Some?
      modifies out, db, db.table.Values
      ensures out.Valid() && out.words == old(out.words) + Words(s)
      ensures db.Valid() && db.table == old(db.table)
      ensures s.SenderReport? && s == SenderReport(sink.value, msw, lsw, rtp, packets, octets, s.blocks)
      ensures source.Some? ==>
              Covers(s.blocks, old(db.contents), Active(old(db.contents))) && db.contents == ResetAll(old(db.contents))
      ensures source.None? ==> s.blocks == [] && db.contents == old(db.contents)
    {
      EnqueueReportPrefix(PT_SR, sink.value, 5);
      EnqueueSenderInfo(msw, lsw, rtp, packets, octets);
      ghost var blocks := EnqueueReportSuffix();
      s := SenderReport(sink.value, msw, lsw, rtp, packets, octets, blocks);
      SRJoined(old(out.words), s);
    }

    method EnqueueSenderInfo(msw: word, lsw: word, rtp: word, packets: word, octets: word)
      requires out.Valid()
      modifies out
      ensures out.Valid() && out.words == old(out.words) + [msw, lsw, rtp, packets, octets]
    {
      out.EnqueueWord(msw);
      out.EnqueueWord(lsw);
      out.EnqueueWord(rtp);
      out.EnqueueWord(packets);
      out.EnqueueWord(octets);
    }

    method AddRR() returns (ghost s: Subpacket)
      requires db.Valid() && Labelled(db.contents) && out.Valid() && source.Some?
      modifies out, db, db.table.Values
      ensures out.Valid() && out.words == old(out.words) + Words(s)
      ensures db.Valid() && db.table == old(db.table)
      ensures s.ReceiverReport? && s.ssrc == source.value
      ensures Covers(s.blocks, old(db.contents), Active(old(db.contents))) && db.contents == ResetAll(old(db.contents))
    {
      EnqueueReportPrefix(PT_RR, source.value, 0);
      ghost var blocks := EnqueueReportSuffix();
      s := ReceiverReport(source.value, blocks);
      RRJoined(old(out.words), s);
    }

    /** Fails, perhaps with a sender report already in the buffer, when reports are turned off. */
    method AddReport(always: bool, sinkEnabled: bool, preset: bool, sourceEnabled: bool, msw: word, lsw: word,
      rtp: word, packets: word, octets: word)
      returns (ok: bool, ghost report: seq<Subpacket>)
      requires db.Valid() && Labelled(db.contents) && out.Valid()
      modifies out, db, db.table.Values
      ensures out.Valid() && out.words == old(out.words) + AllWords(report)
      ensures db.Valid() && db.table == old(db.table) && Labelled(db.contents)
      ensures ok <==> always || ((sink.Some? ==> sinkEnabled && !preset) && (source.Some? ==> sourceEnabled))
      ensures ok ==> ReportOf(report, sink, source, old(db.contents))
      ensures db.contents == if source.Some? && report != [] then ResetAll(old(db.contents)) else old(db.contents)
      ensures !ok ==> LeftOver(report) && forall s <- report :: |s.blocks| == |Active(old(db.contents))|
      ensures !ok ==> (report != [] <==> LeavesOver(sinkEnabled, preset, sourceEnabled))
    {
      LabelledReset(db.contents);
      ResetTwice(db.contents);
      report := [];
      AllWordsEnd(out.words);
      if sink.Some? {
        if !always && (!sinkEnabled || preset) {
          return false, report;
        }
        ghost var s := AddSR(msw, lsw, rtp, packets, octets);
        AllWordsMore(old(out.words), report, s);
        report := report + [s];
      }
      if source.Some? {
        if !always && !sourceEnabled {
          return false, report;
        }
        ghost var t := db.contents;
        ghost var s := AddRR();
        AllWordsMore(old(out.words), report, s);
        if sink.Some? {
          NothingCovered(s.blocks, t);
          assert s == ReceiverReport(source.value, []);
        }
        report := report + [s];
      }
      ok := true;
    }

    /** With neither sink nor source there is no SSRC to put after the header. */
    method AddSDES()
      requires out.Valid()
      modifies out
      ensures out.Valid()
      ensures sink.Some? || source.Some? ==>
              out.words == old(out.words) + Words(Description(OwnSsrc(sink, source), cname))
      ensures sink.None? && source.None? ==>
              out.words == old(out.words) + [Header(1, PT_SDES, (|cname| + 8) / 4)] + Pack(Padded(cname))
    {
      var numBytes := 4 + |cname| + 1;
      out.EnqueueWord(Header(1, PT_SDES, (numBytes + 3) / 4));
      EnqueueOwnSsrc();
      out.EnqueueItem(cname);
      if sink.Some? || source.Some? {
        SDESJoined(old(out.words), OwnSsrc(sink, source), cname);
      }
    }

    method EnqueueOwnSsrc()
      requires out.Valid()
      modifies out
      ensures out.Valid()
      ensures out.words == if sink.Some? || source.Some? then old(out.words) + [OwnSsrc(sink, source)]
              else old(out.words)
    {
      if source.Some? {
        out.EnqueueWord(source.value);
      } else if sink.Some? {
        out.EnqueueWord(sink.value);
      }
    }

    method AddBYE()
      requires out.Valid()
      modifies out
      ensures out.Valid()
      ensures sink.Some? || source.Some? ==> out.words == old(out.words) + Words(Bye(OwnSsrc(sink, source)))
      ensures sink.None? && source.None? ==> out.words == old(out.words) + [Header(1, PT_BYE, 1)]
    {
      out.EnqueueWord(Header(1, PT_BYE, 1));
      EnqueueOwnSsrc();
    }

    method SendBuiltPacket(ghost made: Packet)
      requires out.Valid()
      modifies this`sent, this`lastSentSize, out
      ensures sent == old(sent) + [made.(bytes := Fitted(out.bytesOf(old(out.words))))]
      ensures lastSentSize == IP_UDP_HDR_SIZE + |Fitted(out.bytesOf(old(out.words)))|
      ensures out.Valid() && out.words == []
    {
      sent := sent + [made.(bytes := out.packet)];
      lastSentSize := IP_UDP_HDR_SIZE + |out.packet|;
      out.ResetOffset();
    }

    /** A member has been heard from. */
    method NoteMember(ssrc: word) returns (isNew: bool)
      requires Valid()
      modifies members
      ensures Valid() && members.table == old(members.table)[ssrc := reportCount]
      ensures isNew <==> ssrc !in old(members.table)
    {
      isNew := members.NoteMembership(ssrc, reportCount);
    }

    /** Forgets a member, and with it, if asked, what has been received from it. */
    method RemoveSSRC(ssrc: word, alsoStats: bool)
      requires db.Shape() && members.Valid(reportCount)
      modifies members, db
      ensures members.Valid(reportCount) && members.table == old(members.table) - {ssrc}
      ensures db.Shape() && db.table.Values <= old(db.table.Values) && db.numActive == old(db.numActive)
      ensures db.contents == if alsoStats && source.Some? then old(db.contents) - {ssrc} else old(db.contents)
      ensures !(alsoStats && source.Some?) ==> db.table == old(db.table)
    {
      var _ := members.Remove(ssrc, reportCount);
      if alsoStats && source.Some? {
        db.RemoveRecord(ssrc);
      }
    }

    /** A member has said BYE; its records stay. */
    method RemoveLastReceived(ssrc: word)
      requires Valid()
      modifies members, db
      ensures Valid() && members.table == old(members.table) - {ssrc} && db.contents == old(db.contents)
              && db.table == old(db.table)
    {
      RemoveSSRC(ssrc, false);
    }

    /** Removes members one at a time until all have been heard from since `threshold`. */
    method ReapOldMembers(threshold: nat)
      requires db.Shape() && members.Valid(reportCount)
      modifies members, db
      ensures members.Valid(reportCount) && members.table == Fresh(old(members.table), threshold)
      ensures db.Shape() && db.table.Values <= old(db.table.Values) && db.numActive == old(db.numActive)
      ensures db.contents == if source.Some? then old(db.contents) - (old(members.table).Keys - members.table.Keys)
              else old(db.contents)
    {
      ghost var before, records, gone: set<word> := members.table, db.contents, {};
      var found, ssrc := members.FindOld(threshold, reportCount);
      while found
        invariant db.Shape() && members.Valid(reportCount) && db.numActive == old(db.numActive)
        invariant db.table.Values <= old(db.table.Values)
        invariant OldOnes(before, gone, threshold)
        invariant members.table == before - gone
        invariant db.contents == if source.Some? then records - gone else records
        invariant if found then ssrc in members.table && members.table[ssrc] < threshold
                  else forall s <- members.table :: members.table[s] >= threshold
        decreases |members.table|
      {
        RemoveSSRC(ssrc, true);
        GoneMore(before, gone, ssrc);
        GoneMore(records, gone, ssrc);
        gone := gone + {ssrc};
        found, ssrc := members.FindOld(threshold, reportCount);
      }
      AllReaped(before, gone, threshold);
    }

    /** Puts a report in the buffer, after what was left there from before. */
    method PrepareReport(always: bool, sinkEnabled: bool, preset: bool, sourceEnabled: bool, msw: word, lsw: word,
      rtp: word, packets: word, octets: word)
      returns (did: bool, ghost report: seq<Subpacket>)
      requires Valid()
      modifies out, db, db.table.Values
      ensures db.Valid() && Labelled(db.contents) && db.table == old(db.table)
      ensures out.Valid() && out.words == AllWords(pending + report)
      ensures did <==> always || ((sink.Some? ==> sinkEnabled && !preset) && (source.Some? ==> sourceEnabled))
      ensures did ==> ReportOf(report, sink, source, old(db.contents)) && (source.Some? ==> Active(db.contents) == {})
      ensures !did ==> LeftOver(report) && forall s <- report :: |s.blocks| == |Active(old(db.contents))|
      ensures !did ==> (report != [] <==> LeavesOver(sinkEnabled, preset, sourceEnabled))
      ensures db.contents == if source.Some? && (did || report != []) then ResetAll(old(db.contents))
              else old(db.contents)
    {
      did, report := AddReport(always, sinkEnabled, preset, sourceEnabled, msw, lsw, rtp, packets, octets);
      AllWordsConcat(pending, report);
      ActiveReset(old(db.contents));
    }

    /** Goes out every so often, unless reports are turned off. */
    method SendReport(tc: real, sinkEnabled: bool, preset: bool, sourceEnabled: bool, msw: word, lsw: word, rtp: word,
      packets: word, octets: word,
      ghost packet: seq<Subpacket> -> seq<byte>) returns (did: bool, ghost report: seq<Subpacket>)
      requires Valid() && Finishes(packet, true)
      modifies this`sent, this`lastSentSize, this`reportCount, this`pending, out, db, db.table.Values, members
      ensures Valid() && db.table.Values <= old(db.table.Values)
      ensures did <==> (sink.Some? ==> sinkEnabled && !preset) && (source.Some? ==> sourceEnabled)
      ensures did ==>
              pending == [] && ReportOf(report, sink, source, old(db.contents)) && reportCount == old(reportCount) + 1
      ensures did ==> sent == old(sent) + [old(Making(tc, true)).Finished(old(pending) + report, packet)]
      ensures did ==> members.table == Reaped(old(members.table), reportCount)
      ensures did ==>
              db.contents == if source.Some?
              then ResetAll(old(db.contents)) - (old(members.table).Keys - members.table.Keys) else old(db.contents)
      ensures !did ==> sent == old(sent) && reportCount == old(reportCount) && members.table == old(members.table)
      ensures !did ==>
              pending == old(pending) + report && forall s <- report :: |s.blocks| == |Active(old(db.contents))|
      ensures !did ==> (report != [] <==> LeavesOver(sinkEnabled, preset, sourceEnabled))
      ensures !did ==>
              db.contents == if source.Some? && report != [] then ResetAll(old(db.contents)) else old(db.contents)
    {
      ghost var made := Making(tc, true);
      did, report := PrepareReport(false, sinkEnabled, preset, sourceEnabled, msw, lsw, rtp, packets, octets);
      if !did {
        GiveUp(report);
        return;
      }
      Conclude(made, pending + report, packet);
    }

    /** Leaves what there is of a report in the buffer. */
    method GiveUp(ghost report: seq<Subpacket>)
      requires db.Valid() && Labelled(db.contents) && members.Valid(reportCount) && reportCount >= 1
      requires out.Valid() && out.words == AllWords(pending + report) && LeftOver(pending) && LeftOver(report)
      modifies this`pending
      ensures Valid() && pending == old(pending) + report
    {
      pending := pending + report;
    }

    /** Sends the report in the buffer and tidies up. */
    method Conclude(ghost made: Packet, ghost reports: seq<Subpacket>, ghost packet: seq<Subpacket> -> seq<byte>)
      requires Finishes(packet, made.report) && made.report
      requires db.Valid() && Labelled(db.contents) && members.Valid(reportCount) && out.Valid()
               && out.words == AllWords(reports)
      requires source.Some? ==> Active(db.contents) == {}
      modifies this`sent, this`lastSentSize, this`reportCount, this`pending, out, db, members
      ensures Valid() && db.table.Values <= old(db.table.Values)
      ensures pending == [] && reportCount == old(reportCount) + 1
      ensures sent == old(sent) + [made.Finished(reports, packet)]
      ensures members.table == Reaped(old(members.table), reportCount)
      ensures db.contents == if source.Some? then old(db.contents) - (old(members.table).Keys - members.table.Keys)
              else old(db.contents)
    {
      Emit(true, made, reports, packet);
      ghost var t, ids := db.contents, members.table.Keys;
      CleanOut();
      QuietRemoved(t, ids - members.table.Keys);
    }

    /** Counts the report; every fifth time, members not heard from since the last time but this are forgotten. */
    method CleanOut()
      requires db.Shape() && members.Valid(reportCount)
      modifies this`reportCount, members, db
      ensures reportCount == old(reportCount) + 1 && members.Valid(reportCount)
      ensures members.table == Reaped(old(members.table), reportCount)
      ensures db.Shape() && db.table.Values <= old(db.table.Values) && db.numActive == old(db.numActive)
      ensures db.contents == if source.Some? then old(db.contents) - (old(members.table).Keys - members.table.Keys)
              else old(db.contents)
    {
      NoneGone(db.contents, members.table);
      reportCount := reportCount + 1;
      if reportCount % 5 == 0 {
        ReapOldMembers(reportCount - 5);
      }
    }

    /** Goes out when the session ends, whether or not reports are turned on. */
    method SendBYE(tc: real, msw: word, lsw: word, rtp: word, packets: word, octets: word,
      ghost packet: seq<Subpacket> -> seq<byte>)
      returns (ghost report: seq<Subpacket>)
      requires Valid() && Finishes(packet, false)
      modifies this`sent, this`lastSentSize, this`pending, out, db, db.table.Values
      ensures Valid() && db.table == old(db.table)
      ensures db.contents == if source.Some? then ResetAll(old(db.contents)) else old(db.contents)
      ensures pending == [] && ReportOf(report, sink, source, old(db.contents))
      ensures sent == old(sent) + [old(Making(tc, false)).Finished(old(pending) + report, packet)]
    {
      ghost var made := Making(tc, false);
      var ok;
      ok, report := PrepareReport(true, false, false, false, msw, lsw, rtp, packets, octets);
      Emit(false, made, pending + report, packet);
    }

    /** The packet that will be made now. */
    ghost function Making(tc: real, report: bool): Packet
      reads this, db
    {
      Packet(tc, report, |Active(db.contents)|, pending == [], [], [])
    }

    /** `packet` is how reports are made into a packet. */
    ghost predicate Finishes(packet: seq<Subpacket> -> seq<byte>, sdes: bool) {
      forall r {:trigger PacketOf(r, sink, source, sdes, cname)} :: packet(r) == PacketOf(r, sink, source, sdes, cname)
    }

    /** Finishes the packet in the buffer with a description or a BYE and sends it. */
    method Emit(sdes: bool, ghost made: Packet, ghost reports: seq<Subpacket>,
      ghost packet: seq<Subpacket> -> seq<byte>)
      requires Finishes(packet, sdes) && sdes == made.report
      requires out.Valid() && out.words == AllWords(reports)
      modifies this`sent, this`lastSentSize, this`pending, out
      ensures out.Valid() && out.words == [] && pending == []
      ensures sent == old(sent) + [made.Finished(reports, packet)]
    {
      assert packet(reports) == PacketOf(reports, sink, source, made.report, cname);
      if sdes {
        AddSDES();
      } else {
        AddBYE();
      }
      LastWords(reports, sink, source, made.report, cname);
      SendBuiltPacket(made.(reports := reports));
      pending := [];
    }
  }

  /** Reports followed by a description or a BYE, as sent. With neither sink nor source the SSRC is missing. */
  function PacketOf(reports: seq<Subpacket>, sink: Option<word>, source: Option<word>, sdes: bool,
    cname: Item): seq<byte> {
    if sink.Some? || source.Some? then Encode(reports + [Ending(OwnSsrc(sink, source), sdes, cname)])
    else WordsBytes(AllWords(reports) + Headless(sdes, cname))
  }

  function Ending(ssrc: word, sdes: bool, cname: Item): Subpacket {
    if sdes then Description(ssrc, cname) else Bye(ssrc)
  }

  function Headless(sdes: bool, cname: Item): seq<word> {
    if sdes then [Header(1, PT_SDES, (|cname| + 8) / 4)] + Pack(Padded(cname)) else [Header(1, PT_BYE, 1)]
  }

  /** Accepted by whoever receives it, and not too large. */
  ghost predicate Fine(p: seq<byte>) {
    |p| <= MAX_PACKET && forall l: Listener :: Process(l, p).outcome.Accepted?
  }

  /** Accepted by nobody. */
  ghost predicate Refused(p: seq<byte>) {
    forall l: Listener :: !Process(l, p).outcome.Accepted?
  }

  /** Every report says how many blocks it has, and there is room for all of them. */
  ghost predicate Sayable(subs: seq<Subpacket>) {
    AllSound(subs) && |Encode(subs)| <= MAX_PACKET
  }

  ghost predicate AllSound(subs: seq<Subpacket>) {
    forall s <- subs :: Sound(s)
  }

  /** So many bytes are the first few subpackets, whole. */
  ghost predicate CutBetween(subs: seq<Subpacket>, size: nat) {
    exists k: nat | 0 < k <= |subs| :: |Encode(subs[..k])| == size
  }

  /** Everybody understands everything, word for word, or nobody does. */
  ghost predicate UnderstoodBy(subs: seq<Subpacket>, b: seq<byte>, all: bool)
    requires subs != []
  {
    forall l: Listener :: Process(l, b) == Understood(l, subs, Unknown) <==> all
  }

  /**
   What becomes of a packet that has gone out, with whatever was left in the
   buffer before: it is understood word for word if and only if all reports in
   it are sound and it fits. If they are sound but do not fit, it is still
   accepted if it is cut off between two of them. It is refused if the first
   of them is not sound, or if there is neither a sink nor a source.
   */
  ghost predicate AsDue(sink: Option<word>, source: Option<word>, cname: Item, q: Packet) {
    |q.bytes| <= MAX_PACKET &&
    if sink.None? && source.None? then Refused(q.bytes)
    else
      var subs := q.reports + [Ending(OwnSsrc(sink, source), q.report, cname)];
      && UnderstoodBy(subs, q.bytes, Sayable(subs))
      && (AllSound(subs) ==> if CutBetween(subs, |q.bytes|) then Fine(q.bytes) else Refused(q.bytes))
      && (!Sound(subs[0]) ==> Refused(q.bytes))
      && (q.clean ==> if source.None? || q.sources < 32 then Sayable(subs) else !Sound(subs[0]))
  }

  /** Everybody takes a packet for one of the source's, or of the sink's if there is no source. */
  lemma TakenFor(l: Listener, sink: Option<word>, source: Option<word>, cname: Item, q: Packet)
    requires (sink.Some? || source.Some?) && AsDue(sink, source, cname, q)
    requires Sayable(q.reports + [Ending(OwnSsrc(sink, source), q.report, cname)])
    ensures Process(l, q.bytes).outcome.Accepted?
    ensures Process(l, q.bytes).outcome.ssrc == if source.Some? then source.value else sink.value
  {
    var subs := q.reports + [Ending(OwnSsrc(sink, source), q.report, cname)];
    assert UnderstoodBy(subs, q.bytes, true);
    SenderUnderstood(l, subs, Unknown);
  }

  lemma {:induction false} WordsBytesCut(ws: seq<word>, n: nat)
    requires n <= |ws|
    ensures WordsBytes(ws)[..4 * n] == WordsBytes(ws[..n])
  {
    if n > 0 {
      WordsBytesCut(ws[1..], n - 1);
      assert ws[..n][1..] == ws[1..][..n - 1];
    }
  }

  /** What is sent of a packet are whole words of it. */
  lemma FittedWords(subs: seq<Subpacket>) returns (n: nat)
    requires subs != []
    ensures 0 < n <= |AllWords(subs)| && Fitted(Encode(subs)) == WordsBytes(AllWords(subs)[..n])
    ensures n == |AllWords(subs)| <==> |Encode(subs)| <= MAX_PACKET
  {
    var ws := AllWords(subs);
    AllWordsFirst(subs);
    n := if 4 * |ws| <= MAX_PACKET then |ws| else MAX_PACKET / 4;
    WordsBytesCut(ws, n);
    assert ws[..|ws|] == ws;
  }

  /** Sound subpackets are accepted if and only if the packet is not cut off within one. */
  lemma SoundAccepted(l: Listener, subs: seq<Subpacket>, n: nat)
    requires subs != [] && Reports(subs[0]) && AllSound(subs) && 0 < n <= |AllWords(subs)|
    ensures Process(l, WordsBytes(AllWords(subs)[..n])).outcome.Accepted? <==> CutBetween(subs, 4 * n)
  {
    if n == |AllWords(subs)| {
      assert AllWords(subs)[..n] == AllWords(subs);
      assert subs[..|subs|] == subs;
      Understanding(l, subs);
      UnderstoodSeen(l, subs, Unknown);
    } else {
      var k, m := CutAt(subs, n);
      CutOff(l, subs, k, m);
      if m == 0 {
        UnderstoodSeen(l, subs[..k], Unknown);
        assert AllWords(subs[..k]) + Words(subs[k])[..0] == AllWords(subs[..k]);
        assert |Encode(subs[..k])| == 4 * n;
      } else {
        PrecededOutcome(l, subs[..k], Result(Rejected, [], []));
        NotBetween(subs, k, m, n);
      }
    }
  }

  lemma {:induction false} PrecededOutcome(l: Listener, subs: seq<Subpacket>, r: Result)
    ensures Preceded(l, subs, r).outcome == r.outcome
  {
    if subs != [] {
      PrecededOutcome(l, subs[1..], r);
    }
  }

  /** Words within subpacket `k` are not a number of whole subpackets. */
  lemma NotBetween(subs: seq<Subpacket>, k: nat, m: nat, n: nat)
    requires k < |subs| && 0 < m < |Words(subs[k])| && n == |AllWords(subs[..k])| + m
    ensures !CutBetween(subs, 4 * n)
  {
    PrefixMore(subs, k);
    forall j: nat | 0 < j <= |subs|
      ensures |Encode(subs[..j])| != 4 * n
    {
      if j <= k {
        PrefixGrows(subs, j, k);
      } else {
        PrefixGrows(subs, k + 1, j);
      }
    }
  }

  lemma PrefixMore(subs: seq<Subpacket>, k: nat)
    requires k < |subs|
    ensures |AllWords(subs[..k + 1])| == |AllWords(subs[..k])| + |Words(subs[k])|
  {
    assert subs[..k + 1] == subs[..k] + [subs[k]];
    Lengths(subs[..k], subs[k]);
  }

  lemma PrefixGrows(subs: seq<Subpacket>, i: nat, j: nat)
    requires i <= j <= |subs|
    ensures |AllWords(subs[..i])| <= |AllWords(subs[..j])|
  {
    assert subs[..j] == subs[..i] + subs[i..j];
    AllWordsConcat(subs[..i], subs[i..j]);
  }

  /** What becomes of subpackets that begin with a report, as far as they fit. */
  lemma SentAccepted(subs: seq<Subpacket>, b: seq<byte>)
    requires subs != [] && Reports(subs[0]) && b == Fitted(Encode(subs))
    ensures UnderstoodBy(subs, b, Sayable(subs))
    ensures AllSound(subs) ==> if CutBetween(subs, |b|) then Fine(b) else Refused(b)
    ensures !Sound(subs[0]) ==> Refused(b)
  {
    var n := FittedWords(subs);
    forall l: Listener
      ensures Process(l, b) == Understood(l, subs, Unknown) <==> Sayable(subs)
      ensures AllSound(subs) ==> (Process(l, b).outcome.Accepted? <==> CutBetween(subs, |b|))
      ensures !Sound(subs[0]) ==> !Process(l, b).outcome.Accepted?
    {
      UnderstoodIff(l, subs, n);
      if AllSound(subs) {
        SoundAccepted(l, subs, n);
      }
      if !Sound(subs[0]) {
        FirstDecidesCut(l, subs, n);
      }
    }
  }

  lemma SentAsDue(report: seq<Subpacket>, sink: Option<word>, source: Option<word>, t: Table, cname: Item, q: Packet,
    pending: seq<Subpacket>)
    requires ReportOf(report, sink, source, t) && q.sources == |Active(t)| && (q.clean <==> pending == [])
    requires forall s <- pending :: s.SenderReport? && sink.Some?
    requires q.reports == pending + report && q.bytes == Fitted(PacketOf(q.reports, sink, source, q.report, cname))
    ensures AsDue(sink, source, cname, q)
  {
    if sink.None? && source.None? {
      NobodySends(q.reports, q.report, cname);
    } else {
      var last := Ending(OwnSsrc(sink, source), q.report, cname);
      var subs := q.reports + [last];
      assert subs[0] == if pending == [] then report[0] else pending[0];
      SentAccepted(subs, q.bytes);
      if q.clean {
        assert q.reports == report;
        CleanSayable(report, sink, source, t, last);
      }
    }
  }

  /** A report on its own can be said if it is on fewer than 32 sources, and is not sound otherwise. */
  lemma CleanSayable(report: seq<Subpacket>, sink: Option<word>, source: Option<word>, t: Table, last: Subpacket)
    requires ReportOf(report, sink, source, t) && (sink.Some? || source.Some?) && !Reports(last)
    ensures if source.None? || |Active(t)| < 32 then Sayable(report + [last]) else !Sound((report + [last])[0])
  {
    if source.None? || |Active(t)| < 32 {
      ReportSize(sink, source, t, report, last);
    }
  }

  lemma NobodySends(reports: seq<Subpacket>, sdes: bool, cname: Item)
    requires reports == []
    ensures Refused(Fitted(PacketOf(reports, None, None, sdes, cname)))
  {
    var ws := Headless(sdes, cname);
    assert AllWords(reports) + ws == ws;
    assert |WordsBytes(ws)| <= MAX_PACKET;
    HeaderBack(1, PT_SDES, (|cname| + 8) / 4);
    HeaderBack(1, PT_BYE, 1);
    forall l: Listener
      ensures !Process(l, WordsBytes(ws)).outcome.Accepted?
    {
      ProcessOfWords(l, ws);
    }
  }

  lemma LastWords(reports: seq<Subpacket>, sink: Option<word>, source: Option<word>, sdes: bool, cname: Item)
    ensures sink.Some? || source.Some? ==>
      AllWords(reports) + Words(Ending(OwnSsrc(sink, source), sdes, cname))
        == AllWords(reports + [Ending(OwnSsrc(sink, source), sdes, cname)])
    ensures sdes ==>
            AllWords(reports) + [Header(1, PT_SDES, (|cname| + 8) / 4)] + Pack(Padded(cname))
            == AllWords(reports) + Headless(sdes, cname)
  {
    if sink.Some? || source.Some? {
      AllWordsAppend(reports, Ending(OwnSsrc(sink, source), sdes, cname));
    }
  }

  lemma AllWordsConcat(x: seq<Subpacket>, y: seq<Subpacket>)
    ensures AllWords(x + y) == AllWords(x) + AllWords(y)
  {
    FlattenConcat(Words, x, y);
  }

  lemma ActiveReset(t: Table)
    ensures Active(ResetAll(t)) == {}
  {
  }

  lemma NoneGone<V>(t: map<word, V>, members: map<word, nat>)
    ensures t - (members.Keys - members.Keys) == t
  {
  }

  ghost predicate OldOnes(t: map<word, nat>, gone: set<word>, threshold: nat) {
    forall s <- gone :: s in t && t[s] < threshold
  }

  lemma GoneMore<V>(t: map<word, V>, gone: set<word>, s: word)
    ensures t - gone - {s} == t - (gone + {s})
  {
  }

  lemma AllReaped(t: map<word, nat>, gone: set<word>, threshold: nat)
    requires OldOnes(t, gone, threshold) && forall s <- t - gone :: (t - gone)[s] >= threshold
    ensures t - gone == Fresh(t, threshold) && gone == t.Keys - (t - gone).Keys
  {
  }

  /** There is a block for all active sources but those in `left`. */
  ghost predicate CoversBut(blocks: seq<Block>, t: Table, left: set<word>) {
    Covers(blocks, t, Active(t) - left)
  }

  lemma NoneDone(t: Table)
    ensures CoversBut([], t, t.Keys)
  {
  }

  lemma AllDone(blocks: seq<Block>, t: Table)
    requires CoversBut(blocks, t, {})
    ensures Covers(blocks, t, Active(t))
  {
  }

  lemma DoneStep(t: Table, left: set<word>, ssrc: word)
    requires ssrc in left && ssrc in t
    ensures var done := Active(t) - left;
            ssrc !in done && Active(t) - (left - {ssrc}) == if t[ssrc].sinceReset > 0 then done + {ssrc} else done
  {
  }

  lemma CoversMore(blocks: seq<Block>, t: Table, sources: set<word>, b: Block)
    requires Covers(blocks, t, sources) && b.ssrc !in sources && Tells(b, t)
    ensures Covers(blocks + [b], t, sources + {b.ssrc})
  {
  }

  lemma BlocksWordsMore(before: seq<word>, blocks: seq<Block>, b: Block)
    ensures before + BlocksWords(blocks + [b]) == before + BlocksWords(blocks) + BlockWords(b)
  {
  }

  function ReportHeader(pt: byte, extraWords: nat, n: nat): word
    requires extraWords <= 5
  {
    Header(Capped(n), pt, 1 + extraWords + 6 * Capped(n))
  }

  /** Header, SSRC, sender information and blocks, put in the buffer one after the other. */
  lemma SRJoined(before: seq<word>, s: Subpacket)
    requires s.SenderReport?
    ensures before + [ReportHeader(PT_SR, 5, |s.blocks|), s.ssrc] + [s.msw, s.lsw, s.rtp, s.packets, s.octets]
            + BlocksWords(s.blocks)
         == before + Words(s)
  {
  }

  lemma RRJoined(before: seq<word>, s: Subpacket)
    requires s.ReceiverReport?
    ensures before + [ReportHeader(PT_RR, 0, |s.blocks|), s.ssrc] + BlocksWords(s.blocks) == before + Words(s)
  {
  }

  lemma SDESJoined(before: seq<word>, ssrc: word, item: Item)
    ensures before + [Header(1, PT_SDES, (|item| + 8) / 4)] + [ssrc] + Pack(Padded(item))
            == before + Words(Description(ssrc, item))
  {
  }

  lemma AllWordsEnd(before: seq<word>)
    ensures before + AllWords([]) == before
  {
  }

  lemma AllWordsMore(before: seq<word>, subs: seq<Subpacket>, s: Subpacket)
    ensures before + AllWords(subs + [s]) == before + AllWords(subs) + Words(s)
  {
    AllWordsAppend(subs, s);
  }

  lemma ResetTwice(t: Table)
    ensures ResetAll(ResetAll(t)) == ResetAll(t) && Active(ResetAll(t)) == {}
  {
  }

  lemma NothingCovered(blocks: seq<Block>, t: Table)
    requires Covers(blocks, t, Active(t))
    ensures Active(t) == {} ==> blocks == []
  {
  }
}
