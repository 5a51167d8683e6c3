/**
 RTP and RTCP packets interleaved with RTSP text on one TCP connection
 (section 10.12 of RFC 2326): the receiving state machine, which is handed
 whatever bytes the socket happens to have.
 */
module Interleave {
  import opened Octets

  const DOLLAR: byte := 0x24

  datatype Event =
    | Text(b: byte)                               // passed on to the RTSP byte handler
    | Packet(channel: byte, data: seq<byte>)      // delivered to the reader of a channel

  /**
   What a registered channel has: a reader with a buffer of some size (1456 bytes
   for the RTCP reader), or none, so that its packets are skipped.
   */
  datatype Channel = WithReader(capacity: nat) | WithoutReader

  type Table = map<byte, Channel>

  // ----- the stream, byte by byte -----

  datatype Mode =
    | AwaitDollar
    | AwaitChannel
    | AwaitSize1(channel: byte)
    | AwaitSize2(channel: byte, high: byte)
    | InPacket(channel: byte, missing: nat, got: seq<byte>)

  datatype Parse = Parse(mode: Mode, log: seq<Event>)

  const START: Parse := Parse(AwaitDollar, [])

  /** Text bytes 0xFE and 0xFF are signals of the handler and are not passed on. */
  function TextEvent(b: byte): seq<Event> {
    if b == 0xFF || b == 0xFE then [] else [Text(b)]
  }

  function PacketEvent(table: Table, channel: byte, data: seq<byte>): seq<Event> {
    if channel in table && table[channel].WithReader? then [Packet(channel, data)] else []
  }

  /** The effect of one byte of the stream. */
  function Step(table: Table, s: Parse, b: byte): Parse {
    match s.mode
    case AwaitDollar => if b == DOLLAR then s.(mode := AwaitChannel) else s.(log := s.log + TextEvent(b))
    case AwaitChannel => s.(mode := if b in table then AwaitSize1(b) else AwaitDollar)
    case AwaitSize1(channel) => s.(mode := AwaitSize2(channel, b))
    case AwaitSize2(channel, high) =>
      var size := 256 * high + b;
      s.(mode := if size == 0 then AwaitDollar else InPacket(channel, size, []))
    case InPacket(channel, missing, got) =>
      if missing <= 1 then Parse(AwaitDollar, s.log + PacketEvent(table, channel, got + [b]))
      else s.(mode := InPacket(channel, missing - 1, got + [b]))
  }

  /** The effect of a piece of the stream, however it was cut. */
  function Feed(table: Table, s: Parse, bytes: seq<byte>): Parse {
    if bytes == [] then s else Step(table, Feed(table, s, bytes[..|bytes| - 1]), bytes[|bytes| - 1])
  }

  lemma {:induction false} FeedConcat(table: Table, s: Parse, x: seq<byte>, y: seq<byte>)
    ensures Feed(table, s, x + y) == Feed(table, Feed(table, s, x), y)
  {
    if y == [] {
      assert x + y == x;
    } else {
      assert (x + y)[..|x + y| - 1] == x + y[..|y| - 1];
      FeedConcat(table, s, x, y[..|y| - 1]);
    }
  }

  // ----- framing -----

  /** What a sender puts on the connection: text, or a packet on a channel. */
  datatype Item =
    | TextItem(b: byte)
    | PacketItem(channel: byte, data: seq<byte>)
    | StrayItem(channel: byte)      // a `$` and a channel that is not registered

  predicate Sendable(table: Table, item: Item) {
    match item
    case TextItem(b) => b != DOLLAR
    case PacketItem(channel, data) => channel in table && |data| < 0x1_0000
    case StrayItem(channel) => channel !in table
  }

  ghost predicate AllSendable(table: Table, items: seq<Item>) {
    forall item <- items :: Sendable(table, item)
  }

  /** `$`, channel, size in two bytes, data. */
  function Frame(item: Item): seq<byte> {
    match item
    case TextItem(b) => [b]
    case PacketItem(channel, data) => [DOLLAR, channel, |data| / 256 % 256, |data| % 256] + data
    case StrayItem(channel) => [DOLLAR, channel]
  }

  function FrameAll(items: seq<Item>): seq<byte> {
    if items == [] then [] else FrameAll(items[..|items| - 1]) + Frame(items[|items| - 1])
  }

  /** What the receiver should make of an item; an empty packet is not delivered. */
  function Expected(table: Table, item: Item): seq<Event> {
    match item
    case TextItem(b) => TextEvent(b)
    case PacketItem(channel, data) => if data == [] then [] else PacketEvent(table, channel, data)
    case StrayItem(channel) => []
  }

  function ExpectedAll(table: Table, items: seq<Item>): seq<Event> {
    if items == [] then [] else ExpectedAll(table, items[..|items| - 1]) + Expected(table, items[|items| - 1])
  }

  /** Packet data accumulates until none is missing; then the packet is delivered. */
  lemma {:induction false} FeedBody(table: Table, s: Parse, bytes: seq<byte>)
    requires s.mode.InPacket? && |bytes| <= s.mode.missing && s.mode.missing > 0
    ensures var InPacket(channel, missing, got) := s.mode;
            Feed(table, s, bytes)
            == if |bytes| < missing then s.(mode := InPacket(channel, missing - |bytes|, got + bytes))
               else Parse(AwaitDollar, s.log + PacketEvent(table, channel, got + bytes))
  {
    var got := s.mode.got;
    if bytes == [] {
      assert got + bytes == got;
    } else {
      var n := |bytes| - 1;
      FeedBody(table, s, bytes[..n]);
      assert got + bytes[..n] + [bytes[n]] == got + bytes;
    }
  }

  /** The same, for a stream that has been read as far as packet data. */
  lemma FeedOn(table: Table, stream: seq<byte>, p: nat, q: nat, log: seq<Event>, channel: byte, missing: nat,
    got: seq<byte>)
    requires p <= q <= |stream| && q - p <= missing && missing > 0
    requires Feed(table, START, stream[..p]) == Parse(InPacket(channel, missing, got), log)
    ensures Feed(table, START, stream[..q])
         == if q - p < missing then Parse(InPacket(channel, missing - (q - p), got + stream[p..q]), log)
            else Parse(AwaitDollar, log + PacketEvent(table, channel, got + stream[p..q]))
  {
    assert stream[..q] == stream[..p] + stream[p..q];
    FeedConcat(table, START, stream[..p], stream[p..q]);
    FeedBody(table, Parse(InPacket(channel, missing, got), log), stream[p..q]);
  }

  lemma FeedOne(table: Table, stream: seq<byte>, p: nat)
    requires p < |stream|
    ensures Feed(table, START, stream[..p + 1]) == Step(table, Feed(table, START, stream[..p]), stream[p])
  {
    assert stream[..p + 1][..p] == stream[..p];
  }

  /** One framed item is understood, whatever came before it. */
  lemma FeedItem(table: Table, s: Parse, item: Item)
    requires s.mode == AwaitDollar && Sendable(table, item)
    ensures Feed(table, s, Frame(item)) == Parse(AwaitDollar, s.log + Expected(table, item))
  {
    match item
    case TextItem(b) =>
      assert Frame(item)[..0] == [];
    case PacketItem(channel, data) =>
      var head := [DOLLAR, channel, |data| / 256 % 256, |data| % 256];
      FeedHeader(table, s, channel, |data|);
      FeedConcat(table, s, head, data);
      if data != [] {
        FeedBody(table, s.(mode := InPacket(channel, |data|, [])), data);
        assert [] + data == data;
      }
    case StrayItem(channel) =>
      assert [DOLLAR, channel][..1] == [DOLLAR];
      assert [DOLLAR][..0] == [];
      assert Feed(table, s, [DOLLAR]) == s.(mode := AwaitChannel);
  }

  lemma FeedHeader(table: Table, s: Parse, channel: byte, size: nat)
    requires s.mode == AwaitDollar && channel in table && size < 0x1_0000
    ensures Feed(table, s, [DOLLAR, channel, size / 256 % 256, size % 256])
         == s.(mode := if size == 0 then AwaitDollar else InPacket(channel, size, []))
  {
    var head := [DOLLAR, channel, size / 256 % 256, size % 256];
    assert head[..3] == [DOLLAR, channel, size / 256 % 256];
    assert head[..3][..2] == [DOLLAR, channel];
    assert [DOLLAR, channel][..1] == [DOLLAR];
    assert [DOLLAR][..0] == [];
    assert Feed(table, s, [DOLLAR]) == s.(mode := AwaitChannel);
    assert Feed(table, s, [DOLLAR, channel]) == s.(mode := AwaitSize1(channel));
    assert Feed(table, s, head[..3]) == s.(mode := AwaitSize2(channel, size / 256 % 256));
    assert 256 * (size / 256 % 256) + size % 256 == size;
  }

  /** Everything sent is received, in order and on the right channel. */
  lemma {:induction false} FramingRoundTrip(table: Table, items: seq<Item>)
    requires AllSendable(table, items)
    ensures Feed(table, START, FrameAll(items)) == Parse(AwaitDollar, ExpectedAll(table, items))
  {
    if items != [] {
      var rest, last := items[..|items| - 1], items[|items| - 1];
      FramingRoundTrip(table, rest);
      FeedConcat(table, START, FrameAll(rest), Frame(last));
      FeedItem(table, Parse(AwaitDollar, ExpectedAll(table, rest)), last);
    }
  }

  /**
   The log without reference to the receiver: event `j` is what item `places[j]` carries, in the
   order of the items, and the items left out are text bytes 0xFE and 0xFF, empty packets, packets
   for a channel without a reader and stray marks.
   */
  ghost predicate Delivered(table: Table, items: seq<Item>, places: seq<nat>, log: seq<Event>) {
    && |places| == |log|
    && (forall j | 0 <= j < |places| :: places[j] < |items|)
    && (forall i, j | 0 <= i < j < |places| :: places[i] < places[j])
    && (forall j | 0 <= j < |places| :: Carries(items[places[j]], log[j]))
    && (forall k | 0 <= k < |items| :: k in places <==> !Silent(table, items[k]))
  }

  predicate Carries(item: Item, e: Event) {
    match item
    case TextItem(b) => e == Text(b)
    case PacketItem(channel, data) => e == Packet(channel, data)
    case StrayItem(channel) => false
  }

  predicate Silent(table: Table, item: Item) {
    match item
    case TextItem(b) => b == 0xFE || b == 0xFF
    case PacketItem(channel, data) => data == [] || channel !in table || table[channel] == WithoutReader
    case StrayItem(channel) => true
  }

  /** What is expected of a receiver is that every item that is not silent comes out, once and in order. */
  lemma {:induction false} ExpectedDelivered(table: Table, items: seq<Item>) returns (places: seq<nat>)
    ensures Delivered(table, items, places, ExpectedAll(table, items))
  {
    places := [];
    if items != [] {
      var n := |items| - 1;
      var before := ExpectedDelivered(table, items[..n]);
      places := before;
      if !Silent(table, items[n]) {
        places := before + [n];
        assert n in places;
      }
      forall k | 0 <= k < |items|
        ensures k in places <==> !Silent(table, items[k])
      {
        if k < n {
          assert k in before <==> !Silent(table, items[..n][k]);
        } else {
          assert n !in before;
        }
      }
    }
  }

  /** Text alone is passed on byte by byte. */
  lemma {:induction false} TextAlone(table: Table, bytes: seq<byte>)
    requires forall b <- bytes :: b != DOLLAR && b < 0xFE
    ensures var p := Feed(table, START, bytes);
            p.mode == AwaitDollar && |p.log| == |bytes| && forall k | 0 <= k < |bytes| :: p.log[k] == Text(bytes[k])
  {
    if bytes != [] {
      var n := |bytes| - 1;
      forall b | b in bytes[..n]
        ensures b in bytes
      {
      }
      TextAlone(table, bytes[..n]);
      assert bytes[n] in bytes;
    }
  }

  /** Framing leaves text as it is. */
  lemma {:induction false} TextFramed(items: seq<Item>)
    requires forall item <- items :: item.TextItem?
    ensures |FrameAll(items)| == |items| && forall k | 0 <= k < |items| :: FrameAll(items)[k] == items[k].b
  {
    if items != [] {
      TextFramed(items[..|items| - 1]);
    }
  }

  lemma TextOutcome(table: Table, items: seq<Item>, position: nat)
    requires AllSendable(table, items)
    requires forall item <- items :: item.TextItem? && item.b < 0xFE
    requires position <= |FrameAll(items)|
    ensures |FrameAll(items)| == |items|
    ensures var log := Feed(table, START, FrameAll(items)[..position]).log;
            |log| == position && forall k | 0 <= k < position :: log[k] == Text(items[k].b)
  {
    TextFramed(items);
    var bytes := FrameAll(items)[..position];
    forall b | b in bytes
      ensures b != DOLLAR && b < 0xFE
    {
      var k :| 0 <= k < position && bytes[k] == b;
      assert items[k] in items;
    }
    TextAlone(table, bytes);
  }

  lemma {:induction false} LogGrows(table: Table, s: Parse, bytes: seq<byte>)
    ensures s.log <= Feed(table, s, bytes).log
  {
    if bytes != [] {
      LogGrows(table, s, bytes[..|bytes| - 1]);
    }
  }

  /** The packet under way is this item: its channel, its size, the part that has come. */
  predicate UnderWay(m: Mode, item: Item) {
    m.InPacket? && m.missing > 0 && item.PacketItem? && item.channel == m.channel && |item.data| == |m.got| + m.missing
  }

  /** In the middle of packet data, some item is under way and all before it have been dealt with. */
  ghost predicate AtItem(table: Table, s: Parse, items: seq<Item>) {
    s.mode.InPacket? ==>
      exists i | 0 <= i < |items| :: UnderWay(s.mode, items[i]) && s.log == ExpectedAll(table, items[..i])
  }

  lemma FramePrefix(table: Table, s: Parse, item: Item, k: nat)
    requires s.mode == AwaitDollar && Sendable(table, item) && k <= |Frame(item)|
    ensures var p := Feed(table, s, Frame(item)[..k]);
            p.mode.InPacket? ==> UnderWay(p.mode, item) && p.log == s.log
  {
    var x := Frame(item);
    if k == |x| {
      assert x[..k] == x;
      FeedItem(table, s, item);
    } else if k <= 3 {
      ShortPrefix(table, s, x[..k]);
    } else {
      var size := |item.data|;
      FeedHeader(table, s, item.channel, size);
      assert x[..k] == [DOLLAR, item.channel, size / 256 % 256, size % 256] + item.data[..k - 4];
      FeedConcat(table, s, [DOLLAR, item.channel, size / 256 % 256, size % 256], item.data[..k - 4]);
      FeedBody(table, s.(mode := InPacket(item.channel, size, [])), item.data[..k - 4]);
    }
  }

  /** Three bytes are not enough to be inside a packet. */
  lemma ShortPrefix(table: Table, s: Parse, x: seq<byte>)
    requires s.mode == AwaitDollar && |x| <= 3
    ensures !Feed(table, s, x).mode.InPacket?
  {
    if x != [] {
      var y := x[..|x| - 1];
      assert Feed(table, s, x) == Step(table, Feed(table, s, y), x[|x| - 1]);
      if y != [] {
        var z := y[..|y| - 1];
        assert Feed(table, s, y) == Step(table, Feed(table, s, z), y[|y| - 1]);
        if z != [] {
          assert z[..0] == [];
          assert Feed(table, s, z) == Step(table, s, z[0]);
        }
      }
    }
  }

  lemma {:induction false} StreamPrefix(table: Table, items: seq<Item>, k: nat)
    requires AllSendable(table, items) && k <= |FrameAll(items)|
    ensures AtItem(table, Feed(table, START, FrameAll(items)[..k]), items)
  {
    if items != [] {
      var n := |items| - 1;
      var rest, last := items[..n], items[n];
      var x := FrameAll(rest);
      if k <= |x| {
        StreamPrefix(table, rest, k);
        assert FrameAll(items)[..k] == x[..k];
        StillAtItem(table, Feed(table, START, x[..k]), items);
      } else {
        FramingRoundTrip(table, rest);
        assert FrameAll(items)[..k] == x + Frame(last)[..k - |x|];
        FeedConcat(table, START, x, Frame(last)[..k - |x|]);
        FramePrefix(table, Feed(table, START, x), last, k - |x|);
      }
    }
  }

  lemma StillAtItem(table: Table, s: Parse, items: seq<Item>)
    requires items != [] && AtItem(table, s, items[..|items| - 1])
    ensures AtItem(table, s, items)
  {
    if s.mode.InPacket? {
      var rest := items[..|items| - 1];
      var i :| 0 <= i < |rest| && UnderWay(s.mode, rest[i]) && s.log == ExpectedAll(table, rest[..i]);
      assert rest[..i] == items[..i] && rest[i] == items[i];
    }
  }

  // ----- the socket -----

  /** The number of the first `n` reads for which the socket has something. */
  function Yielding(schedule: seq<nat>, n: nat): nat {
    if n == 0 then 0 else Yielding(schedule, n - 1) + if n <= |schedule| && schedule[n - 1] > 0 then 1 else 0
  }

  lemma {:induction false} YieldingGrows(schedule: seq<nat>, m: nat, n: nat)
    requires m <= n
    ensures Yielding(schedule, m) <= Yielding(schedule, n)
  {
    if m < n {
      YieldingGrows(schedule, m, n - 1);
    }
  }

  // ----- the program -----

  datatype ReadingState =
    AWAITING_DOLLAR | AWAITING_STREAM_CHANNEL_ID | AWAITING_SIZE1 | AWAITING_SIZE2 | AWAITING_PACKET_DATA

  class SocketDescriptor {
    const table: Table         // registered interfaces, by channel
    var readingState: ReadingState
    var streamChannelId: byte
    var sizeByte1: byte
    var nextReadSize: map<byte, nat>        // per interface: bytes of the packet still on the connection
    var inBuf: map<byte, seq<byte>>         // per reader: the part of the packet read so far
    var log: seq<Event>                     // calls made to the byte handler and the readers
    const stream: seq<byte>                 // everything the peer sends on the connection
    const schedule: seq<nat>                // how much of it the socket has, read by read, and nothing after that
    var position: nat                       // how much of it has been read from the socket
    var tick: nat                           // how many reads have been made
    ghost var body: seq<byte>               // the part of the packet at hand already read

    ghost function CurrentMode(): Mode
      reads this
    {
      match readingState
      case AWAITING_DOLLAR => AwaitDollar
      case AWAITING_STREAM_CHANNEL_ID => AwaitChannel
      case AWAITING_SIZE1 => AwaitSize1(streamChannelId)
      case AWAITING_SIZE2 => AwaitSize2(streamChannelId, sizeByte1)
      case AWAITING_PACKET_DATA =>
        if streamChannelId in nextReadSize && nextReadSize[streamChannelId] > 0
        then InPacket(streamChannelId, nextReadSize[streamChannelId], body)
        else AwaitDollar
    }

    /** A packet is under way: its channel is known and the reader's buffer holds what has come so far. */
    ghost predicate Receiving()
      reads this
    {
      readingState == AWAITING_PACKET_DATA && streamChannelId in nextReadSize && nextReadSize[streamChannelId] > 0
    }

    ghost predicate Shape()
      reads this
    {
      && nextReadSize.Keys == inBuf.Keys == table.Keys
      && (readingState != AWAITING_DOLLAR && readingState != AWAITING_STREAM_CHANNEL_ID ==> streamChannelId in table)
    }

    /** The state is what the bytes read so far, taken one by one, lead to. */
    ghost predicate Valid()
      reads this
    {
      && Shape()
      && (forall c <- table ::
         if Receiving() && c == streamChannelId && table[c].WithReader? then inBuf[c] == body else inBuf[c] == [])
      && (Receiving() && table[streamChannelId].WithReader? ==> |body| <= table[streamChannelId].capacity)
      && (forall e <- log :: Fits(table, e))
      && Fed()
      && Parse(CurrentMode(), log) == Feed(table, START, stream[..position])
    }

    /** Every read that could yield something has yielded at least a byte. */
    ghost predicate Fed()
      reads this
    {
      position == |stream| || Yielding(schedule, tick) <= position < |stream|
    }

    /** Reads made, counted double, and the call that only returns to the text state. */
    ghost function Work(): nat
      reads this
    {
      2 * tick + if Settling() then 0 else 1
    }

    /** The socket had nothing for read `t`: it pauses, or the stream is at its end. */
    ghost predicate Idle(t: nat)
      reads this`position
    {
      t < |schedule| && schedule[t] > 0 ==> position == |stream|
    }

    /** The reader's buffer is full before the packet is complete. */
    ghost predicate Stuck()
      reads this
    {
      && Receiving() && streamChannelId in table && table[streamChannelId].WithReader?
      && |body| >= table[streamChannelId].capacity
    }

    /** A packet is complete and the next call only returns to the text state. */
    ghost predicate Settling()
      reads this
    {
      readingState == AWAITING_PACKET_DATA && !Receiving()
    }

    constructor (channels: Table, bytes: seq<byte>, sizes: seq<nat>)
      ensures Valid() && table == channels && stream == bytes && schedule == sizes && position == 0 && tick == 0
      ensures Work() == 1
    {
      table, stream, schedule, position, tick := channels, bytes, sizes, 0, 0;
      readingState, streamChannelId, sizeByte1 := AWAITING_DOLLAR, 0, 0;
      nextReadSize := map c | c in channels :: 0;
      inBuf := map c | c in channels :: [];
      log, body := [], [];
    }

    /** The socket yields what it has, up to `max` bytes; 0 means that it has nothing for now. */
    method ReadSocket(max: nat) returns (bytes: seq<byte>)
      requires Fed() && max > 0
      modifies this`position, this`tick
      ensures Fed() && old(position) <= position && tick == old(tick) + 1
      ensures bytes == stream[old(position)..position] && |bytes| <= max
      ensures bytes == [] <==> old(Idle(tick))
    {
      var n := if tick < |schedule| then schedule[tick] else 0;
      if n > max {
        n := max;
      }
      if n > |stream| - position {
        n := |stream| - position;
      }
      bytes := stream[position..position + n];
      position, tick := position + n, tick + 1;
    }

    /** One byte in one of the four header states. */
    method HeaderByte(c: byte)
      requires Shape() && readingState != AWAITING_PACKET_DATA
      modifies this`readingState, this`streamChannelId, this`sizeByte1, this`nextReadSize, this`log, this`body
      ensures Shape()
      ensures Parse(CurrentMode(), log) == Step(table, old(Parse(CurrentMode(), log)), c)
      ensures Receiving() ==> body == []
      ensures log == old(log) || log == old(log) + [Text(c)]
    {
      match readingState
      case AWAITING_DOLLAR =>
        if c == DOLLAR {
          readingState := AWAITING_STREAM_CHANNEL_ID;
        } else if c != 0xFF && c != 0xFE {
          log := log + [Text(c)];
        } else {
          assert old(log) + [] == log;
        }
      case AWAITING_STREAM_CHANNEL_ID =>
        if c in table {
          streamChannelId := c;
          readingState := AWAITING_SIZE1;
        } else {
          readingState := AWAITING_DOLLAR;
        }
      case AWAITING_SIZE1 =>
        sizeByte1 := c;
        readingState := AWAITING_SIZE2;
      case AWAITING_SIZE2 =>
        nextReadSize := nextReadSize[streamChannelId := 256 * sizeByte1 + c];
        body := [];
        readingState := AWAITING_PACKET_DATA;
    }

    /** Reads packet data from the connection until the socket pauses, the packet ends or `max` bytes have come. */
    method HandleRead(max: nat) returns (data: seq<byte>, incomplete: bool)
      requires streamChannelId in nextReadSize && nextReadSize[streamChannelId] > 0 && max > 0 && Fed()
      modifies this`position, this`tick, this`nextReadSize
      ensures Fed() && old(position) <= position && data == stream[old(position)..position] && tick > old(tick)
      ensures |data| <= max && |data| <= old(nextReadSize[streamChannelId])
      ensures |data| < max && |data| < old(nextReadSize[streamChannelId]) ==> Idle(tick - 1)
      ensures nextReadSize == old(nextReadSize)[streamChannelId := old(nextReadSize[streamChannelId]) - |data|]
      ensures incomplete <==> nextReadSize[streamChannelId] > 0
    {
      data := [];
      var total := nextReadSize[streamChannelId];
      if total > max {
        total := max;
      }
      while |data| < total
        invariant |data| <= total && nextReadSize == old(nextReadSize)
        invariant Fed() && old(position) <= position && data == stream[old(position)..position]
        invariant tick >= old(tick) && (data != [] ==> tick > old(tick))
        decreases total - |data|
      {
        var some := ReadSocket(total - |data|);
        if some == [] {
          break;
        }
        data := data + some;
      }
      nextReadSize := nextReadSize[streamChannelId := nextReadSize[streamChannelId] - |data|];
      incomplete := nextReadSize[streamChannelId] > 0;
    }

    /** The packet reader of a channel: assembles a packet over as many calls as it takes. */
    method IncomingReport()
      requires Valid() && Receiving() && table[streamChannelId].WithReader?
      modifies this`position, this`tick, this`nextReadSize, this`inBuf, this`log, this`body
      ensures Valid() && old(position) <= position
      ensures if old(Stuck()) then tick == old(tick) && Stuck() else tick > old(tick)
      ensures Receiving() && !Stuck() ==> Idle(tick - 1)
    {
      var soFar := inBuf[streamChannelId];
      var capacity := table[streamChannelId].capacity;
      if |soFar| >= capacity {
        return;
      }
      var data, incomplete := HandleRead(capacity - |soFar|);
      FeedOn(table, stream, old(position), position, log, streamChannelId, old(nextReadSize[streamChannelId]), body);
      body := body + data;
      if incomplete {
        inBuf := inBuf[streamChannelId := soFar + data];
      } else {
        inBuf := inBuf[streamChannelId := []];
        log := log + [Packet(streamChannelId, soFar + data)];
      }
    }

    /** Without a reader, packet data is thrown away a byte at a time. */
    method SkipByte() returns (again: bool)
      requires Valid() && Receiving() && table[streamChannelId] == WithoutReader
      modifies this`position, this`tick, this`nextReadSize, this`body
      ensures Valid() && old(position) <= position && tick == old(tick) + 1
      ensures again <==> !old(Idle(tick))
    {
      var some := ReadSocket(1);
      FeedOn(table, stream, old(position), position, log, streamChannelId, nextReadSize[streamChannelId], body);
      body := body + some;
      again := some != [];
      if again {
        nextReadSize := nextReadSize[streamChannelId := nextReadSize[streamChannelId] - 1];
        assert log + [] == log;
      }
    }

    /** One go at the header of a packet, or at the text between packets. */
    method ReadHeader() returns (again: bool)
      requires Valid() && readingState != AWAITING_PACKET_DATA
      modifies this
      ensures Valid() && old(position) <= position && tick == old(tick) + 1
      ensures again <==> !old(Idle(tick))
    {
      var some := ReadSocket(1);
      if some == [] {
        return false;
      }
      FeedOne(table, stream, old(position));
      HeaderByte(some[0]);
      return true;
    }

    /** The state machine: at most one header byte, or one go at the packet data. */
    method TcpReadHandler1() returns (again: bool)
      requires Valid()
      modifies this
      ensures Valid() && old(position) <= position
      ensures if old(Stuck()) then Stuck() else Work() > old(Work())
      ensures again <==>
              old((readingState != AWAITING_PACKET_DATA || (Receiving() && table[streamChannelId] == WithoutReader))
              && !Idle(tick))
    {
      if readingState != AWAITING_PACKET_DATA {
        again := ReadHeader();
        return;
      }
      if nextReadSize[streamChannelId] == 0 {
        readingState := AWAITING_DOLLAR;
        return false;
      }
      if table[streamChannelId].WithReader? {
        IncomingReport();
        again := false;
      } else {
        again := SkipByte();
      }
    }

    /** Called by the scheduler whenever the socket is readable. */
    method TcpReadHandler()
      requires Valid()
      modifies this
      ensures Valid() && old(position) <= position
      ensures if old(Stuck()) then Stuck() else Stuck() || Work() > old(Work())
    {
      var count := 2000;
      var again := true;
      while again && count > 0
        invariant Valid() && old(position) <= position
        invariant old(Stuck()) ==> Stuck()
        invariant Stuck() || (if count == 2000 then again && Work() == old(Work()) else Work() > old(Work()))
        decreases count
      {
        again := TcpReadHandler1();
        count := count - 1;
      }
    }
  }

  /** What a reader has been given fits its buffer. */
  predicate Fits(table: Table, e: Event) {
    e.Packet? ==> e.channel in table && table[e.channel].WithReader? && 0 < |e.data| <= table[e.channel].capacity
  }

  /** An item the readers can take: a packet for a reader fits its buffer. */
  predicate Deliverable(table: Table, item: Item) {
    item.PacketItem? && item.channel in table && table[item.channel].WithReader? ==>
      |item.data| <= table[item.channel].capacity
  }

  predicate AllDeliverable(table: Table, items: seq<Item>) {
    forall item <- items :: Deliverable(table, item)
  }

  /** The items before the first that its reader cannot take. */
  function Leading(table: Table, items: seq<Item>): seq<Item> {
    if items == [] then []
    else var rest := items[..|items| - 1];
      if AllDeliverable(table, rest) then (if Deliverable(table, items[|items| - 1]) then items else rest)
        else Leading(table, rest)
  }

  /**
   Any number of calls, on a socket that yields its bytes in any pieces: what
   has been delivered is the beginning of what was sent, all of it once all
   bytes are read. If the socket yields often enough and is served often
   enough, then all of it is delivered if every packet fits its reader, and
   the reader of the first that does not is stuck otherwise.
   */
  method Receive(channels: Table, items: seq<Item>, schedule: seq<nat>, calls: nat) returns (d: SocketDescriptor)
    requires AllSendable(channels, items)
    ensures fresh(d) && d.Valid() && d.table == channels && d.stream == FrameAll(items) && d.schedule == schedule
    ensures d.log <= ExpectedAll(channels, items)
    ensures d.position == |d.stream| ==> d.log == ExpectedAll(channels, items)
    ensures d.position == |d.stream| ==> exists places :: Delivered(channels, items, places, d.log)
    ensures (forall item <- items :: item.TextItem? && item.b < 0xFE) ==>
              && |d.stream| == |items| && |d.log| == d.position
              && forall k | 0 <= k < |d.log| :: d.log[k] == Text(items[k].b)
    ensures AllDeliverable(channels, items) ==> !d.Stuck()
    ensures d.Stuck() ==> d.log == ExpectedAll(channels, Leading(channels, items))
    ensures calls >= 2 * |schedule| && Yielding(schedule, |schedule|) >= |FrameAll(items)| ==>
              if AllDeliverable(channels, items) then d.log == ExpectedAll(channels, items) && d.position == |d.stream|
                else d.Stuck()
  {
    d := new SocketDescriptor(channels, FrameAll(items), schedule);
    for i := 0 to calls
      invariant fresh(d) && d.Valid()
      invariant d.Stuck() || d.Work() > i
    {
      d.TcpReadHandler();
    }
    Outcome(channels, items, d.position, d.CurrentMode(), d.log);
    ghost var places := ExpectedDelivered(channels, items);
    if forall item <- items :: item.TextItem? && item.b < 0xFE {
      TextOutcome(channels, items, d.position);
    }
    if calls >= 2 * |schedule| && !d.Stuck() {
      YieldingGrows(schedule, |schedule|, d.tick);
    }
  }

  /** Where the receiver can stand once part of a framed stream has been read. */
  lemma Outcome(table: Table, items: seq<Item>, position: nat, mode: Mode, log: seq<Event>)
    requires AllSendable(table, items)
    requires position <= |FrameAll(items)| && Parse(mode, log) == Feed(table, START, FrameAll(items)[..position])
    requires forall e <- log :: Fits(table, e)
    ensures log <= ExpectedAll(table, items)
    ensures position == |FrameAll(items)| ==> log == ExpectedAll(table, items) && AllDeliverable(table, items)
    ensures AtItem(table, Parse(mode, log), items)
    ensures mode.InPacket? && (exists item :: UnderWay(mode, item) && !Deliverable(table, item)) ==>
              !AllDeliverable(table, items) && log == ExpectedAll(table, Leading(table, items))
  {
    var stream := FrameAll(items);
    FramingRoundTrip(table, items);
    FeedConcat(table, START, stream[..position], stream[position..]);
    assert stream[..position] + stream[position..] == stream;
    LogGrows(table, Feed(table, START, stream[..position]), stream[position..]);
    assert stream[..|stream|] == stream;
    StreamPrefix(table, items, position);
    if position == |stream| {
      DeliveredFit(table, items);
    }
    if mode.InPacket? && exists item :: UnderWay(mode, item) && !Deliverable(table, item) {
      var i :| 0 <= i < |items| && UnderWay(mode, items[i]) && log == ExpectedAll(table, items[..i]);
      DeliveredFit(table, items[..i]);
      LeadingTo(table, items, i);
    }
  }

  /** If every packet delivered fits its reader then every item was deliverable. */
  lemma {:induction false} DeliveredFit(table: Table, items: seq<Item>)
    requires forall e <- ExpectedAll(table, items) :: Fits(table, e)
    ensures AllDeliverable(table, items)
  {
    if items != [] {
      var rest, last := items[..|items| - 1], items[|items| - 1];
      DeliveredFit(table, rest);
      if !Deliverable(table, last) {
        assert Packet(last.channel, last.data) in ExpectedAll(table, items);
      }
    }
  }

  lemma {:induction false} LeadingTo(table: Table, items: seq<Item>, i: nat)
    requires i < |items| && AllDeliverable(table, items[..i]) && !Deliverable(table, items[i])
    ensures !AllDeliverable(table, items) && Leading(table, items) == items[..i]
  {
    var rest := items[..|items| - 1];
    if i < |rest| {
      assert rest[..i] == items[..i];
      LeadingTo(table, rest, i);
    }
  }
}
