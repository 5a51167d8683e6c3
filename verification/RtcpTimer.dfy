/**
 When RTCP reports go out: the randomised interval, reconsideration when the
 timer expires and reverse reconsideration when members leave (section 6.3
 and appendix A.7 of RFC 3550). Times are exact reals, in seconds.
 */
module RtcpTimer {
  import opened Wrappers
  import opened Octets
  import opened Reception
  import opened RtcpMembers
  import opened RtcpPacket
  import opened RtcpReport

  const RTCP_MIN_TIME := 5.0
  const COMPENSATION := 2.71828 - 1.5

  /** The least time between two reports once the first has gone out. */
  const LEAST_GAP := 0.5 * RTCP_MIN_TIME / COMPENSATION

  // ----- the interval -----

  /** Participants that share bandwidth with us, and the bandwidth they share. */
  function Share(members: int, senders: int, bw: real, weSent: bool): (int, real) {
    if senders > 0 && (senders as real) < members as real * 0.25 then
      if weSent then (senders, bw * 0.25) else (members - senders, bw * 0.75)
    else (members, bw)
  }

  /** The interval aimed at, before it is randomised. */
  function Target(members: int, senders: int, bw: real, weSent: bool, avgSize: real, initial: bool): real
    requires bw > 0.0
  {
    var (n, b) := Share(members, senders, bw, weSent);
    var least := if initial then RTCP_MIN_TIME / 2.0 else RTCP_MIN_TIME;
    Clamped(Load(avgSize, n), b, least)
  }

  /** One packet of average size from each. */
  function Load(avgSize: real, n: int): real {
    avgSize * (n as real)
  }

  /** How long `size` bytes take at rate `b`, but no less than `least`. */
  function Clamped(size: real, b: real, least: real): real
    requires b > 0.0
  {
    var t := size / b;
    if t < least then least else t
  }

  /** `draw` is uniform in [0, 1). */
  function RtcpInterval(members: int, senders: int, bw: real, weSent: bool, avgSize: real, initial: bool,
    draw: real): real
    requires bw > 0.0
  {
    Target(members, senders, bw, weSent, avgSize, initial) * (draw + 0.5) / COMPENSATION
  }

  /** `t` is the larger of the two. */
  predicate Larger(t: real, x: real, y: real) {
    t >= x && t >= y && (t == x || t == y)
  }

  /** The larger of the least time and the time that `size` bytes take at rate `b`. */
  predicate Aims(t: real, initial: bool, size: real, b: real)
    requires b > 0.0
  {
    Larger(t, if initial then 2.5 else 5.0, size / b)
  }

  /**
   In numbers: senders that make up less than a quarter of the members have a quarter of the
   bandwidth for themselves and leave three quarters to the others; otherwise all share it all.
   */
  lemma TargetIs(members: int, senders: int, bw: real, weSent: bool, avgSize: real, initial: bool)
    requires bw > 0.0
    ensures var t := Target(members, senders, bw, weSent, avgSize, initial);
            && (0 < 4 * senders < members && weSent ==> Aims(t, initial, avgSize * (senders as real), bw / 4.0))
            && (0 < 4 * senders < members && !weSent ==>
                  Aims(t, initial, avgSize * ((members - senders) as real), 3.0 * bw / 4.0))
            && (!(0 < 4 * senders < members) ==> Aims(t, initial, avgSize * (members as real), bw))
  {
    var n, b := ShareIs(members, senders, bw, weSent);
    TargetAims(members, senders, bw, weSent, avgSize, initial, n, b);
    LoadIs(avgSize, n);
  }

  lemma LoadIs(avgSize: real, n: int)
    ensures Load(avgSize, n) == avgSize * (n as real)
  {
  }

  lemma ShareIs(members: int, senders: int, bw: real, weSent: bool) returns (n: int, b: real)
    requires bw > 0.0
    ensures Share(members, senders, bw, weSent) == (n, b)
    ensures if !(0 < 4 * senders < members) then n == members && b == bw
            else if weSent then n == senders && b == bw / 4.0
            else n == members - senders && b == 3.0 * bw / 4.0
  {
    n, b := Share(members, senders, bw, weSent).0, Share(members, senders, bw, weSent).1;
  }

  lemma TargetAims(members: int, senders: int, bw: real, weSent: bool, avgSize: real, initial: bool, n: int, b: real)
    requires bw > 0.0 && b > 0.0 && Share(members, senders, bw, weSent) == (n, b)
    ensures Aims(Target(members, senders, bw, weSent, avgSize, initial), initial, Load(avgSize, n), b)
  {
    ClampedAims(Load(avgSize, n), b, initial);
  }

  lemma ClampedAims(size: real, b: real, initial: bool)
    requires b > 0.0
    ensures Aims(Clamped(size, b, if initial then 2.5 else 5.0), initial, size, b)
  {
  }

  /** One report each of the usual size from everybody who shares does not use more than the share. */
  lemma TargetFits(members: int, senders: int, bw: real, weSent: bool, avgSize: real, initial: bool)
    requires bw > 0.0
    ensures var (n, b) := Share(members, senders, bw, weSent);
            avgSize * (n as real) <= b * Target(members, senders, bw, weSent, avgSize, initial)
  {
  }

  /** The two groups between them use the whole of the bandwidth. */
  lemma SharesAdd(members: int, senders: int, bw: real)
    ensures var ((n1, b1), (n2, b2)) := (Share(members, senders, bw, true), Share(members, senders, bw, false));
            if senders > 0 && 4 * senders < members then n1 + n2 == members && b1 + b2 == bw
              else (n1, b1) == (n2, b2) == (members, bw)
  {
  }

  lemma IntervalBounds(members: int, senders: int, bw: real, weSent: bool, avgSize: real, initial: bool, draw: real)
    requires bw > 0.0 && 0.0 <= draw < 1.0
    ensures var t := Target(members, senders, bw, weSent, avgSize, initial);
            var interval := RtcpInterval(members, senders, bw, weSent, avgSize, initial, draw);
            0.5 * t / COMPENSATION <= interval < 1.5 * t / COMPENSATION
    ensures RtcpInterval(members, senders, bw, weSent, avgSize, initial, draw) >= if initial then LEAST_GAP / 2.0
            else LEAST_GAP
  {
    TargetLeast(members, senders, bw, weSent, avgSize, initial);
    Spread(Target(members, senders, bw, weSent, avgSize, initial), draw);
  }

  lemma TargetLeast(members: int, senders: int, bw: real, weSent: bool, avgSize: real, initial: bool)
    requires bw > 0.0
    ensures Target(members, senders, bw, weSent, avgSize, initial) >= if initial then RTCP_MIN_TIME / 2.0
            else RTCP_MIN_TIME
  {
  }

  lemma Spread(t: real, draw: real)
    requires t > 0.0 && 0.0 <= draw < 1.0
    ensures 0.5 * t / COMPENSATION <= t * (draw + 0.5) / COMPENSATION < 1.5 * t / COMPENSATION
  {
    var y := t * (draw + 0.5);
    Around(t, draw + 0.5, y);
    DividedBetween(0.5 * t, y, 1.5 * t);
  }

  lemma Around(t: real, x: real, y: real)
    requires t > 0.0 && 0.5 <= x < 1.5 && y == t * x
    ensures 0.5 * t <= y < 1.5 * t
  {
    assert t * (x - 0.5) >= 0.0;
    assert t * (1.5 - x) > 0.0;
  }

  lemma DividedBetween(a: real, x: real, b: real)
    requires a <= x < b
    ensures a / COMPENSATION <= x / COMPENSATION < b / COMPENSATION
  {
  }

  // ----- what an event does to the timer -----

  datatype Clock = Clock(
    tp: real,           // last transmission, as far as the timer is concerned
    tn: real,           // next expiry
    avgSize: real,
    initial: bool,
    pmembers: int)      // members when tn was last worked out

  /** Exponential average of packet sizes. */
  function Average(avgSize: real, size: nat): real {
    size as real / 16.0 + 15.0 / 16.0 * avgSize
  }

  function Averaged(avgSize: real, size: nat, packets: nat): real {
    if packets == 0 then avgSize else Average(Averaged(avgSize, size, packets - 1), size)
  }

  function Power(x: real, n: nat): real {
    if n == 0 then 1.0 else x * Power(x, n - 1)
  }

  /** With packets of one size the average comes nearer to it by a sixteenth of the way at a time. */
  lemma {:induction false} AverageNears(avgSize: real, size: nat, packets: nat)
    ensures Averaged(avgSize, size, packets) - size as real == Power(15.0 / 16.0, packets) * (avgSize - size as real)
  {
    if packets > 0 {
      AverageNears(avgSize, size, packets - 1);
      var p, gap := Power(15.0 / 16.0, packets - 1), avgSize - size as real;
      assert (15.0 / 16.0 * p) * gap == 15.0 / 16.0 * (p * gap);
    }
  }

  /** Moves a time towards `tc`, in proportion to the members that are left. */
  function Drawn(tc: real, t: real, members: int, pmembers: int): real
    requires pmembers > 0
  {
    tc + (members as real / pmembers as real) * (t - tc)
  }

  lemma DrawnSpelt(tc: real, t: real, members: int, pmembers: int)
    requires pmembers > 0
    ensures Drawn(tc, t, members, pmembers) == tc + (members as real / pmembers as real) * (t - tc)
  {
  }

  /** Reverse reconsideration: fewer members than when the timer was set. */
  function Reversed(c: Clock, members: int, tc: real): Clock
    requires members >= 0
  {
    if members < c.pmembers then
      c.(tn := Drawn(tc, c.tn, members, c.pmembers), tp := tc - (members as real / c.pmembers as real) * (tc - c.tp),
        pmembers := members)
    else c
  }

  lemma DrawnBetween(tc: real, t: real, members: int, pmembers: int)
    requires 0 <= members < pmembers
    ensures var r := Drawn(tc, t, members, pmembers);
            && (t >= tc ==> tc <= r <= t) && (t <= tc ==> t <= r <= tc)
            && (pmembers as real) * (r - tc) == (members as real) * (t - tc)
  {
  }

  /**
   When members leave, the last report is moved forward, but not past now, and the next
   one is brought nearer, but not past now.
   */
  lemma ReversedKeeps(c: Clock, members: int, tc: real)
    requires members >= 0 && c.tp <= tc
    ensures var r := Reversed(c, members, tc);
            && c.tp <= r.tp <= tc
            && (c.tn >= tc ==> tc <= r.tn <= c.tn)
            && (c.tn <= tc ==> c.tn <= r.tn <= tc)
  {
    if members < c.pmembers {
      DrawnBetween(tc, c.tn, members, c.pmembers);
      DrawnBetween(tc, c.tp, members, c.pmembers);
      assert tc - (members as real / c.pmembers as real) * (tc - c.tp) == Drawn(tc, c.tp, members, c.pmembers);
    }
  }

  /** Reconsidering once for all that have left is the same as for one after the other. */
  lemma ReversedTwice(c: Clock, fewer: int, least: int, tc: real)
    requires 0 <= least <= fewer <= c.pmembers && fewer > 0
    ensures Reversed(Reversed(c, fewer, tc), least, tc) == Reversed(c, least, tc)
  {
  }

  datatype EventType = EventReport | EventBye

  datatype PacketType = RtcpReport | RtcpBye | OtherPacket

  /** A packet has arrived; `members` counts those that are left. */
  function Received(c: Clock, waiting: EventType, p: PacketType, size: nat, members: int, tc: real): Clock
    requires members >= 0
  {
    if p == OtherPacket then c
    else
      var d := c.(avgSize := Average(c.avgSize, size));
      if p == RtcpBye && waiting == EventReport then Reversed(d, members, tc) else d
  }

  /**
   Reports and BYEs change the average, and nothing else is changed unless a BYE leaves fewer
   members than there were while a report is waiting.
   */
  lemma ReceivedChanges(c: Clock, waiting: EventType, p: PacketType, size: nat, members: int, tc: real)
    requires members >= 0
    ensures var r := Received(c, waiting, p, size, members, tc);
            && r.avgSize == (if p == OtherPacket then c.avgSize else size as real / 16.0 + 15.0 / 16.0 * c.avgSize)
            && r.initial == c.initial
            && (p == RtcpBye && waiting == EventReport && members < c.pmembers ==>
                  r.pmembers == members
                  && (c.pmembers as real) * (r.tn - tc) == (members as real) * (c.tn - tc)
                  && (c.pmembers as real) * (tc - r.tp) == (members as real) * (tc - c.tp))
            && (!(p == RtcpBye && waiting == EventReport && members < c.pmembers) ==>
                  r.pmembers == c.pmembers && r.tn == c.tn && r.tp == c.tp)
  {
    if p == RtcpBye && waiting == EventReport && members < c.pmembers {
      DrawnBetween(tc, c.tn, members, c.pmembers);
      DrawnBetween(tc, c.tp, members, c.pmembers);
      DrawnSpelt(tc, c.tp, members, c.pmembers);
    }
  }

  /** The timer has expired: is it time to send? */
  predicate Due(c: Clock, interval: real, tc: real) { c.tp + interval <= tc }

  /** The timer after a report has gone out. */
  function Restarted(c: Clock, tc: real, interval: real, size: nat, members: int): Clock {
    Clock(tc, tc + interval, Average(c.avgSize, size), false, members)
  }

  /** A timer set for `tn` by some interval fires then if the same interval is drawn again, and not before. */
  lemma DueAtExpiry(c: Clock, interval: real, size: nat, members: int, t: real, tc: real)
    ensures Due(Restarted(c, t, interval, size, members), interval, tc)
       <==> tc >= Restarted(c, t, interval, size, members).tn
    ensures c.tn == c.tp + interval ==> (Due(c, interval, tc) <==> tc >= c.tn)
  {
  }

  ghost predicate Spaced(times: seq<real>) {
    forall i | 0 < i < |times| :: times[i] - times[i - 1] >= LEAST_GAP
  }

  /** No transmission is later than the timer has it, whatever reconsideration does to it. */
  ghost predicate Paced(c: Clock, sends: seq<real>, now: real) {
    && Spaced(sends) && c.tp <= now
    && (sends != [] ==> !c.initial && sends[|sends| - 1] <= c.tp)
  }

  lemma ReceivedPaced(c: Clock, waiting: EventType, p: PacketType, size: nat, members: int, tc: real, sends: seq<real>,
    now: real)
    requires Paced(c, sends, now) && now <= tc && members >= 0
    ensures Paced(Received(c, waiting, p, size, members, tc), sends, tc)
  {
    ReversedKeeps(c.(avgSize := Average(c.avgSize, size)), members, tc);
  }

  lemma RestartedPaced(c: Clock, tc: real, interval: real, size: nat, members: int, sends: seq<real>)
    requires Paced(c, sends, tc) && (!c.initial ==> c.tp + LEAST_GAP <= tc)
    ensures Paced(Restarted(c, tc, interval, size, members), sends + [tc], tc)
    ensures Paced(Restarted(c, tc, interval, size, members), sends, tc)
  {
  }

  /** When the reports among some packets went out. */
  function Stamps(sent: seq<Packet>): seq<real> {
    if sent == [] then []
    else Stamps(sent[..|sent| - 1]) + if sent[|sent| - 1].report then [sent[|sent| - 1].time] else []
  }

  /** A BYE does not count as a report. */
  lemma ByePaced(c: Clock, before: seq<Packet>, after: seq<Packet>, now: real, tc: real)
    requires Paced(c, Stamps(before), now) && now <= tc && SentOne(before, after, tc, false)
    ensures Paced(c, Stamps(after), tc)
  {
    assert Stamps(after) == Stamps(before);
  }

  /** Exactly one packet has gone out, at this time. */
  ghost predicate SentOne(before: seq<Packet>, after: seq<Packet>, tc: real, report: bool) {
    |after| == |before| + 1 && before == after[..|before|] && after[|before|].time == tc
      && after[|before|].report == report
  }

  // ----- the session's timer -----

  /** What there is to report just now, and whether to. */
  datatype Outlook = Outlook(
    sinkEnabled: bool, preset: bool, sourceEnabled: bool,
    msw: word, lsw: word, rtp: word, packets: word, octets: word) {

    /** A report is not given up after the sink's part of it has been put in the buffer. */
    predicate Steady(sink: Option<word>, source: Option<word>) {
      sink.Some? && source.Some? && sinkEnabled && !preset ==> sourceEnabled
    }
  }

  /** A reset or a removal makes no source active. */
  lemma StillQuiet(t: Table, heard: set<word>, after: Table)
    requires Active(t) <= heard
    requires after == t || after == ResetAll(t) || exists gone: set<word> :: after == ResetAll(t) - gone
    ensures Active(after) <= heard
  {
    ActiveReset(t);
    if after != t && after != ResetAll(t) {
      var gone: set<word> :| after == ResetAll(t) - gone;
      forall s | s in after
        ensures after[s].sinceReset == 0
      {
        assert s !in Active(ResetAll(t));
      }
    }
  }

  lemma SubsetSize(a: set<word>, b: set<word>)
    requires a <= b
    ensures |a| <= |b|
  {
    assert b == a + (b - a);
  }

  /** Draws an interval for so many members, an average size, whether it is the first, and a random number. */
  type Drawing = (int, real, bool, real) -> real

  /** No interval is too short. */
  ghost predicate LongEnough(interval: Drawing) {
    forall m, a, i, d :: 0.0 <= d < 1.0 ==> interval(m, a, i, d) >= if i then LEAST_GAP / 2.0 else LEAST_GAP
  }

  /** The session's bandwidth is in kilobits a second; 5% of it is for RTCP, in bytes a second. */
  function RtcpBandwidth(kbps: nat): (bw: real)
    ensures kbps > 0 ==> bw > 0.0
  {
    0.05 * (kbps as real) * 1024.0 / 8.0
  }

  /** We are the only sender we know of, if we send at all. */
  function DrawingFor(kbps: nat, weSent: bool): (interval: Drawing)
    requires kbps > 0
    ensures LongEnough(interval)
  {
    var interval := (m: int, a: real, i: bool, d: real) =>
      RtcpInterval(m, if weSent then 1 else 0, RtcpBandwidth(kbps), weSent, a, i, d);
    assert LongEnough(interval) by {
      forall m, a, i, d | 0.0 <= d < 1.0
        ensures interval(m, a, i, d) >= if i then LEAST_GAP / 2.0 else LEAST_GAP
      {
        IntervalBounds(m, if weSent then 1 else 0, RtcpBandwidth(kbps), weSent, a, i, d);
      }
    }
    interval
  }

  /**
   The interval in numbers: 6.4 bytes a second for each kilobit a second of the session, all of it
   or, with five members or more and us a sender, a quarter.
   */
  lemma DrawingIs(kbps: nat, weSent: bool, m: int, a: real, i: bool, d: real)
    requires kbps > 0
    ensures var t := Target(m, if weSent then 1 else 0, RtcpBandwidth(kbps), weSent, a, i);
            && DrawingFor(kbps, weSent)(m, a, i, d) == t * (d + 0.5) / 1.21828
            && (weSent && m > 4 ==> Aims(t, i, a, 1.6 * (kbps as real)))
            && (!(weSent && m > 4) ==> Aims(t, i, a * (m as real), 6.4 * (kbps as real)))
  {
    var bw := RtcpBandwidth(kbps);
    var senders := if weSent then 1 else 0;
    TargetIs(m, senders, bw, weSent, a, i);
    assert bw == 6.4 * (kbps as real) && bw / 4.0 == 1.6 * (kbps as real);
    assert DrawingFor(kbps, weSent)(m, a, i, d) == RtcpInterval(m, senders, bw, weSent, a, i, d);
    assert COMPENSATION == 1.21828;
  }

  class ReportTimer {
    const interval: Drawing
    var clock: Clock
    var typeOfEvent: EventType
    var sends: seq<real>        // when reports were sent, as far as the timer is concerned
    var byes: seq<real>
    var now: real               // time of the last event

    ghost predicate Valid()
      reads this
    {
      LongEnough(interval) && Paced(clock, sends, now) && (clock.initial <==> sends == [])
    }

    constructor (kbps: nat, weSent: bool, tc: real)
      requires kbps > 0
      ensures Valid() && now == tc && sends == [] && byes == [] && typeOfEvent == EventReport
      ensures clock == Clock(tc, tc, 0.0, true, 0) && interval == DrawingFor(kbps, weSent)
    {
      interval := DrawingFor(kbps, weSent);
      clock, typeOfEvent, sends, byes, now := Clock(tc, tc, 0.0, true, 0), EventReport, [], [], tc;
    }

    /** The timer has expired, at a time that need not be the one it was set for: is something to be sent now? */
    method OnExpire(members: int, tc: real, draw: real) returns (fire: bool)
      requires Valid() && now <= tc && 0.0 <= draw < 1.0
      modifies this`clock, this`now
      ensures Valid() && now == tc
      ensures var t := interval(members, old(clock).avgSize, old(clock).initial, draw);
              && fire == Due(old(clock), t, tc)
              && clock == if fire then old(clock)
                          else old(clock).(tn := old(clock).tp + t, pmembers := if typeOfEvent == EventReport
                            then members else old(clock).pmembers)
      ensures fire && !clock.initial ==> clock.tp + LEAST_GAP <= tc
    {
      var t := interval(members, clock.avgSize, clock.initial, draw);
      fire := Due(clock, t, tc);
      if !fire {
        clock := clock.(tn := clock.tp + t);
        if typeOfEvent == EventReport {
          clock := clock.(pmembers := members);
        }
      }
      now := tc;
    }

    /** From now on a BYE is all there is to send. */
    method Finish(tc: real)
      requires Valid() && now <= tc
      modifies this`typeOfEvent, this`now
      ensures Valid() && typeOfEvent == EventBye && now == tc
    {
      typeOfEvent, now := EventBye, tc;
    }

    /** A report of `size` bytes has gone out; the interval is drawn anew. */
    method ReportSent(members: int, size: nat, draw: real)
      requires Valid() && (!clock.initial ==> clock.tp + LEAST_GAP <= now)
      modifies this`clock, this`sends
      ensures Valid() && sends == old(sends) + [now]
      ensures clock == Restarted(old(clock), now, interval(members, Average(old(clock).avgSize, size),
              old(clock).initial, draw), size, members)
    {
      ghost var before := clock;
      clock := clock.(avgSize := Average(clock.avgSize, size), tp := now);
      var t := interval(members, clock.avgSize, clock.initial, draw);
      clock := clock.(tn := t + now, initial := false, pmembers := members);
      RestartedPaced(before, now, t, size, members, sends);
      sends := sends + [now];
    }

    method ByeSent()
      modifies this`byes
      ensures byes == old(byes) + [now]
    {
      byes := byes + [now];
    }

    /** A packet has arrived from somebody who was a member already, or not; `members` is how many there were. */
    method OnReceive(p: PacketType, isNew: bool, size: nat, members: int, tc: real)
      requires Valid() && now <= tc && members >= if isNew then 1 else 2
      modifies this`clock, this`now
      ensures Valid() && now == tc
      ensures clock == Received(old(clock), typeOfEvent, p, size, if isNew then members else members - 1, tc)
    {
      var left := members;
      ReceivedPaced(clock, typeOfEvent, p, size, if isNew then members else members - 1, tc, sends, now);
      if p != OtherPacket {
        clock := clock.(avgSize := Average(clock.avgSize, size));
      }
      if p == RtcpBye && typeOfEvent == EventReport {
        if !isNew {
          left := left - 1;
        }
        if left < clock.pmembers {
          ghost var before := clock;
          var tn := tc + (left as real / clock.pmembers as real) * (clock.tn - tc);
          var tp := tc - (left as real / clock.pmembers as real) * (tc - clock.tp);
          DrawnSpelt(tc, clock.tn, left, clock.pmembers);
          clock := clock.(tn := tn, tp := tp, pmembers := left);
          assert clock == Reversed(before, left, tc);
        }
      }
      now := tc;
    }
  }

  // ----- the session and its timer together -----

  /** All that went out is what it should be. */
  ghost predicate AllAsDue(sink: Option<word>, source: Option<word>, cname: Item, sent: seq<Packet>) {
    forall q <- sent :: AsDue(sink, source, cname, q)
  }

  /** Nothing was ever left in the buffer. */
  ghost predicate Clean(pending: seq<Subpacket>, sent: seq<Packet>) {
    pending == [] && forall q <- sent :: q.clean
  }

  /** No report is on more than `n` sources. */
  ghost predicate AtMost(subs: seq<Subpacket>, n: nat) {
    forall s <- subs :: Reports(s) ==> |s.blocks| <= n
  }

  /** Only these sources have been heard. */
  ghost predicate Heard(t: Table, pending: seq<Subpacket>, sent: seq<Packet>, heard: set<word>) {
    && Active(t) <= heard && AtMost(pending, |heard|)
    && forall q <- sent :: q.sources <= |heard| && AtMost(q.reports, |heard|)
  }

  lemma OneMoreAsDue(sink: Option<word>, source: Option<word>, cname: Item, before: seq<Packet>, after: seq<Packet>)
    requires AllAsDue(sink, source, cname, before) && |after| == |before| + 1 && before == after[..|before|]
    requires AsDue(sink, source, cname, after[|before|])
    ensures AllAsDue(sink, source, cname, after)
  {
  }

  /** A packet has gone out. */
  lemma OneMoreHeard(t: Table, after: Table, pending: seq<Subpacket>, report: seq<Subpacket>, sent: seq<Packet>,
    q: Packet, heard: set<word>)
    requires Heard(t, pending, sent, heard) && q.sources == |Active(t)|
    requires q.reports == pending + report && AtMost(report, |Active(t)|)
    requires after == t || after == ResetAll(t) || exists gone: set<word> :: after == ResetAll(t) - gone
    ensures Heard(after, [], sent + [q], heard)
  {
    SubsetSize(Active(t), heard);
    StillQuiet(t, heard, after);
  }

  /** A report has been given up. */
  lemma MoreLeftOver(t: Table, after: Table, pending: seq<Subpacket>, report: seq<Subpacket>, sent: seq<Packet>,
    heard: set<word>)
    requires Heard(t, pending, sent, heard) && AtMost(report, |Active(t)|) && (after == t || after == ResetAll(t))
    ensures Heard(after, pending + report, sent, heard)
  {
    SubsetSize(Active(t), heard);
    StillQuiet(t, heard, after);
  }

  lemma ReportAtMost(report: seq<Subpacket>, sink: Option<word>, source: Option<word>, t: Table)
    requires ReportOf(report, sink, source, t)
    ensures AtMost(report, |Active(t)|)
  {
  }

  class Participant {
    const session: RTCPInstance
    const timer: ReportTimer

    ghost predicate Valid()
      reads this, timer, session, session.db, session.db.table.Values, session.members, session.out
    {
      session.Valid() && timer.Valid() && Paced(timer.clock, Stamps(session.sent), timer.now)
      && AllAsDue(session.sink, session.source, session.cname, session.sent)
    }

    constructor (sink: Option<word>, source: Option<word>, cname: Item, kbps: nat, tc: real)
      requires kbps > 0
      ensures Valid() && fresh(timer) && fresh(session) && fresh(session.db) && fresh(session.db.table.Values)
              && fresh(session.members) && fresh(session.out)
      ensures timer.now == tc && timer.sends == [] && timer.typeOfEvent == EventReport
      ensures session.sink == sink && session.source == source && session.cname == cname && session.sent == []
      ensures Clean(session.pending, session.sent) && Heard(session.db.contents, session.pending, session.sent, {})
    {
      session := new RTCPInstance(sink, source, cname);
      timer := new ReportTimer(kbps, sink.Some?, tc);
      assert Active(map[]) == {};
    }

    /** What there is to report may be reported. */
    predicate ReportsOn(o: Outlook) {
      (session.sink.Some? ==> o.sinkEnabled && !o.preset) && (session.source.Some? ==> o.sourceEnabled)
    }

    /** Sends something if it is time to, and nothing otherwise. */
    method OnExpire(tc: real, draw1: real, draw2: real, o: Outlook, ghost heard: set<word>)
      requires Valid() && timer.now <= tc && 0.0 <= draw1 < 1.0
      modifies timer, session, session.out, session.db, session.db.table.Values, session.members
      ensures Valid() && timer.now == tc && session.db.table.Values <= old(session.db.table.Values)
      ensures var t := timer.interval(old(session.members.numMembers), old(timer.clock).avgSize,
              old(timer.clock).initial, draw1);
              var due := Due(old(timer.clock), t, tc);
              && timer.typeOfEvent == old(timer.typeOfEvent)
              && timer.sends == (if due && timer.typeOfEvent == EventReport then old(timer.sends) + [tc]
                 else old(timer.sends))
              && if due && (timer.typeOfEvent == EventBye || ReportsOn(o))
                 then SentOne(old(session.sent), session.sent, tc, timer.typeOfEvent == EventReport)
                 else session.sent == old(session.sent)
      ensures old(Clean(session.pending, session.sent)) && o.Steady(session.sink, session.source) ==>
              Clean(session.pending, session.sent)
      ensures old(Heard(session.db.contents, session.pending, session.sent, heard)) ==>
              Heard(session.db.contents, session.pending, session.sent, heard)
    {
      var members := session.members.numMembers;
      var fire := timer.OnExpire(members, tc, draw1);
      if fire {
        Fire(members, draw2, o, heard);
      }
    }

    /** Sends what is due, and tells the timer. */
    method Fire(members: int, draw: real, o: Outlook, ghost heard: set<word>)
      requires Valid() && (!timer.clock.initial ==> timer.clock.tp + LEAST_GAP <= timer.now)
      modifies timer, session, session.out, session.db, session.db.table.Values, session.members
      ensures Valid() && timer.now == old(timer.now) && session.db.table.Values <= old(session.db.table.Values)
      ensures timer.typeOfEvent == old(timer.typeOfEvent)
      ensures timer.typeOfEvent == EventReport ==> timer.sends == old(timer.sends) + [timer.now]
      ensures timer.typeOfEvent == EventBye ==> timer.sends == old(timer.sends)
      ensures if timer.typeOfEvent == EventBye || ReportsOn(o)
              then SentOne(old(session.sent), session.sent, timer.now, timer.typeOfEvent == EventReport)
              else session.sent == old(session.sent)
      ensures old(Clean(session.pending, session.sent)) && o.Steady(session.sink, session.source) ==>
              Clean(session.pending, session.sent)
      ensures old(Heard(session.db.contents, session.pending, session.sent, heard)) ==>
              Heard(session.db.contents, session.pending, session.sent, heard)
    {
      ghost var before := session.sent;
      var size := Send(o, heard);
      ghost var after := session.sent;
      SettleStays(members, size, draw, before, after);
    }

    /** `Settle` leaves the session alone. */
    method SettleStays(members: int, size: nat, draw: real, ghost before: seq<Packet>, ghost after: seq<Packet>)
      requires timer.Valid() && (!timer.clock.initial ==> timer.clock.tp + LEAST_GAP <= timer.now)
      requires Paced(timer.clock, Stamps(before), timer.now) && session.Valid()
      requires after == before || SentOne(before, after, timer.now, timer.typeOfEvent == EventReport)
      modifies timer
      ensures timer.Valid() && timer.now == old(timer.now) && timer.typeOfEvent == old(timer.typeOfEvent)
      ensures timer.typeOfEvent == EventReport ==> timer.sends == old(timer.sends) + [timer.now]
      ensures timer.typeOfEvent == EventBye ==> timer.sends == old(timer.sends)
      ensures Paced(timer.clock, Stamps(after), timer.now) && session.Valid()
    {
      Settle(members, size, draw, before, after);
    }

    /** Tells the timer that what it was set for has been sent, if it could be. */
    method Settle(members: int, size: nat, draw: real, ghost before: seq<Packet>, ghost after: seq<Packet>)
      requires timer.Valid() && (!timer.clock.initial ==> timer.clock.tp + LEAST_GAP <= timer.now)
      requires Paced(timer.clock, Stamps(before), timer.now)
      requires after == before || SentOne(before, after, timer.now, timer.typeOfEvent == EventReport)
      modifies timer
      ensures timer.Valid() && timer.now == old(timer.now) && timer.typeOfEvent == old(timer.typeOfEvent)
      ensures timer.typeOfEvent == EventReport ==> timer.sends == old(timer.sends) + [timer.now]
      ensures timer.typeOfEvent == EventBye ==> timer.sends == old(timer.sends)
      ensures Paced(timer.clock, Stamps(after), timer.now)
    {
      if timer.typeOfEvent == EventBye {
        timer.ByeSent();
      } else {
        RestartedPaced(timer.clock, timer.now, timer.interval(members, Average(timer.clock.avgSize, size),
          timer.clock.initial, draw), size, members, Stamps(before));
        timer.ReportSent(members, size, draw);
      }
    }

    /** Sends what the timer was set for. */
    method Send(o: Outlook, ghost heard: set<word>) returns (size: nat)
      requires session.Valid() && AllAsDue(session.sink, session.source, session.cname, session.sent)
      modifies session, session.out, session.db, session.db.table.Values, session.members
      ensures session.Valid() && AllAsDue(session.sink, session.source, session.cname, session.sent)
      ensures session.db.table.Values <= old(session.db.table.Values)
      ensures if timer.typeOfEvent == EventBye || ReportsOn(o)
              then SentOne(old(session.sent), session.sent, timer.now, timer.typeOfEvent == EventReport)
              else session.sent == old(session.sent)
      ensures old(Clean(session.pending, session.sent)) && o.Steady(session.sink, session.source) ==>
              Clean(session.pending, session.sent)
      ensures old(Heard(session.db.contents, session.pending, session.sent, heard)) ==>
              Heard(session.db.contents, session.pending, session.sent, heard)
    {
      if timer.typeOfEvent == EventBye {
        SendBYEPacket(timer.now, o, heard);
      } else {
        SendRTCPReport(timer.now, o, heard);
      }
      size := session.lastSentSize;
    }

    method SendRTCPReport(tc: real, o: Outlook, ghost heard: set<word>)
      requires session.Valid() && AllAsDue(session.sink, session.source, session.cname, session.sent)
      modifies session, session.out, session.db, session.db.table.Values, session.members
      ensures session.Valid() && AllAsDue(session.sink, session.source, session.cname, session.sent)
      ensures session.db.table.Values <= old(session.db.table.Values)
      ensures if ReportsOn(o) then SentOne(old(session.sent), session.sent, tc, true)
              else session.sent == old(session.sent)
      ensures old(Clean(session.pending, session.sent)) && o.Steady(session.sink, session.source) ==>
              Clean(session.pending, session.sent)
      ensures old(Heard(session.db.contents, session.pending, session.sent, heard)) ==>
              Heard(session.db.contents, session.pending, session.sent, heard)
    {
      ghost var t, before, pending := session.db.contents, session.sent, session.pending;
      var did, report := session.SendReport(tc, o.sinkEnabled, o.preset, o.sourceEnabled, o.msw, o.lsw, o.rtp,
        o.packets, o.octets,
        r => PacketOf(r, session.sink, session.source, true, session.cname));
      if did {
        Sent(t, report, before, pending, heard);
      } else if Heard(t, pending, before, heard) {
        MoreLeftOver(t, session.db.contents, pending, report, before, heard);
      }
    }

    /** What holds of all packets holds of them and the one that has just gone out. */
    lemma Sent(t: Table, report: seq<Subpacket>, before: seq<Packet>, pending: seq<Subpacket>, heard: set<word>)
      requires AllAsDue(session.sink, session.source, session.cname, before)
      requires |session.sent| == |before| + 1 && before == session.sent[..|before|] && session.pending == []
      requires ReportOf(report, session.sink, session.source, t) && session.LeftOver(pending)
      requires var q := session.sent[|before|];
               && q.sources == |Active(t)| && (q.clean <==> pending == []) && q.reports == pending + report
               && q.bytes == Fitted(PacketOf(q.reports, session.sink, session.source, q.report, session.cname))
      requires var after := session.db.contents;
               after == t || after == ResetAll(t) || exists gone: set<word> :: after == ResetAll(t) - gone
      ensures AllAsDue(session.sink, session.source, session.cname, session.sent)
      ensures Heard(t, pending, before, heard) ==> Heard(session.db.contents, [], session.sent, heard)
    {
      var q := session.sent[|before|];
      SentAsDue(report, session.sink, session.source, t, session.cname, q, pending);
      OneMoreAsDue(session.sink, session.source, session.cname, before, session.sent);
      if Heard(t, pending, before, heard) {
        ReportAtMost(report, session.sink, session.source, t);
        OneMoreHeard(t, session.db.contents, pending, report, before, q, heard);
        assert session.sent == before + [q];
      }
    }

    method SendBYEPacket(tc: real, o: Outlook, ghost heard: set<word>)
      requires session.Valid() && AllAsDue(session.sink, session.source, session.cname, session.sent)
      modifies session, session.out, session.db, session.db.table.Values
      ensures session.Valid() && AllAsDue(session.sink, session.source, session.cname, session.sent)
      ensures session.db.table == old(session.db.table)
      ensures SentOne(old(session.sent), session.sent, tc, false)
      ensures old(Clean(session.pending, session.sent)) ==> Clean(session.pending, session.sent)
      ensures old(Heard(session.db.contents, session.pending, session.sent, heard)) ==>
              Heard(session.db.contents, session.pending, session.sent, heard)
    {
      ghost var t, before, pending := session.db.contents, session.sent, session.pending;
      var report := session.SendBYE(tc, o.msw, o.lsw, o.rtp, o.packets, o.octets,
        r => PacketOf(r, session.sink, session.source, false, session.cname));
      Sent(t, report, before, pending, heard);
    }

    /** The session ends: a BYE goes out at once, whatever the timer says. */
    method Close(tc: real, o: Outlook, ghost heard: set<word>)
      requires Valid() && timer.now <= tc
      modifies timer, session, session.out, session.db, session.db.table.Values
      ensures Valid() && timer.now == tc && timer.typeOfEvent == EventBye && timer.sends == old(timer.sends)
              && timer.clock == old(timer.clock)
      ensures SentOne(old(session.sent), session.sent, tc, false)
      ensures old(Clean(session.pending, session.sent)) ==> Clean(session.pending, session.sent)
      ensures old(Heard(session.db.contents, session.pending, session.sent, heard)) ==>
              Heard(session.db.contents, session.pending, session.sent, heard)
    {
      ghost var before, now := session.sent, timer.now;
      timer.Finish(tc);
      SendBYEPacket(tc, o, heard);
      ByePaced(timer.clock, before, session.sent, now, tc);
    }

    /** A packet of `size` bytes from `ssrc` has arrived; a BYE from a stranger makes a member of him. */
    method OnReceive(p: PacketType, ssrc: word, size: nat, tc: real)
      requires Valid() && timer.now <= tc
      modifies timer`clock, timer`now, session.members, session.db
      ensures Valid() && timer.now == tc && session.db.table == old(session.db.table) && timer.sends == old(timer.sends)
      ensures session.sent == old(session.sent)
      ensures session.db.contents == old(session.db.contents)
      ensures session.members.table == Membership(old(session.members.table), p, timer.typeOfEvent, ssrc,
              session.reportCount)
    {
      var members := session.members.numMembers;
      var isNew := NoteSender(p, ssrc);
      ReceivedPaced(timer.clock, timer.typeOfEvent, p, size, if isNew then members
        else members - 1, tc, Stamps(session.sent), timer.now);
      timer.OnReceive(p, isNew, size, members, tc);
    }

    /** An RTP packet has arrived; it does not touch the timer. */
    method OnMedia(ssrc: word, seqNum: SeqNum)
      requires Valid()
      modifies session.db, session.db.table.Values
      ensures Valid() && fresh(session.db.table.Values - old(session.db.table.Values))
      ensures session.db.contents == TableNoted(old(session.db.contents), ssrc, seqNum)
      ensures Active(session.db.contents) == old(Active(session.db.contents)) + {ssrc}
    {
      ActiveNoted(session.db.contents, ssrc, seqNum);
      session.NoteIncomingPacket(ssrc, seqNum);
    }

    /** A sender report makes no source active. */
    method OnInfo(ssrc: word, msw: word, lsw: word)
      requires Valid()
      modifies session.db, session.db.table.Values
      ensures Valid() && fresh(session.db.table.Values - old(session.db.table.Values))
      ensures session.db.contents == TableReported(old(session.db.contents), ssrc, msw, lsw)
      ensures Active(session.db.contents) == old(Active(session.db.contents))
    {
      ActiveReported(session.db.contents, ssrc, msw, lsw);
      session.NoteIncomingSR(ssrc, msw, lsw);
    }

    /** Anything that can happen; `heard` are the sources there may be. */
    method Happen(e: Occurrence, ghost heard: set<word>)
      requires Valid() && timer.now <= e.tc && (e.Expiry? ==> 0.0 <= e.draw1 < 1.0)
      modifies timer, session, session.out, session.db, session.db.table.Values, session.members
      ensures Valid() && timer.now <= e.tc && fresh(session.db.table.Values - old(session.db.table.Values))
      ensures session.sent == old(session.sent)
              || (e.Expiry? && SentOne(old(session.sent), session.sent, e.tc, timer.typeOfEvent == EventReport))
      ensures timer.typeOfEvent == old(timer.typeOfEvent)
      ensures old(Clean(session.pending, session.sent)) && e.Steady(session.sink, session.source)
              ==> Clean(session.pending, session.sent)
      ensures old(Heard(session.db.contents, session.pending, session.sent, heard)) && (e.Media? ==> e.ssrc in heard)
              ==> Heard(session.db.contents, session.pending, session.sent, heard)
    {
      if e.Expiry? {
        OnExpire(e.tc, e.draw1, e.draw2, e.outlook, heard);
      } else {
        Arrive(e);
      }
    }

    /** Something has come in, or has been found out from it; nothing is sent. */
    method Arrive(e: Occurrence)
      requires Valid() && timer.now <= e.tc && !e.Expiry?
      modifies timer`clock, timer`now, session.db, session.db.table.Values, session.members
      ensures Valid() && timer.now <= e.tc && fresh(session.db.table.Values - old(session.db.table.Values))
      ensures e.Media? ==> Active(session.db.contents) == old(Active(session.db.contents)) + {e.ssrc}
      ensures !e.Media? ==> Active(session.db.contents) == old(Active(session.db.contents))
    {
      match e
      case Arrival(now, packet, ssrc, size) => OnReceive(packet, ssrc, size, now);
      case Media(_, ssrc, seqNum) => OnMedia(ssrc, seqNum);
      case Info(_, ssrc, msw, lsw) => OnInfo(ssrc, msw, lsw);
    }

    /** What a packet does to the members. */
    method NoteSender(p: PacketType, ssrc: word) returns (isNew: bool)
      requires session.Valid()
      modifies session.members, session.db
      ensures session.Valid() && session.db.table == old(session.db.table)
              && session.db.contents == old(session.db.contents)
      ensures session.members.table == Membership(old(session.members.table), p, timer.typeOfEvent, ssrc,
              session.reportCount)
      ensures old(session.members.numMembers) >= if isNew then 1 else 2
    {
      isNew := true;
      if p == RtcpReport || (p == RtcpBye && timer.typeOfEvent == EventReport) {
        isNew := session.NoteMember(ssrc);
        if p == RtcpBye && !isNew {
          session.RemoveLastReceived(ssrc);
        }
      }
    }
  }

  /** The members after a packet has arrived. */
  function Membership(t: map<word, nat>, p: PacketType, waiting: EventType, ssrc: word, count: nat): map<word, nat> {
    match p
    case OtherPacket => t
    case RtcpReport => t[ssrc := count]
    case RtcpBye => if waiting == EventBye then t else if ssrc in t then t - {ssrc} else t[ssrc := count]
  }

  // ----- whole runs -----

  datatype Occurrence =
    | Expiry(tc: real, draw1: real, draw2: real, outlook: Outlook)
    | Arrival(tc: real, p: PacketType, ssrc: word, size: nat)
    | Media(tc: real, ssrc: word, seqNum: SeqNum)
    | Info(tc: real, ssrc: word, msw: word, lsw: word)      // the sender part of a report
  {
    predicate Steady(sink: Option<word>, source: Option<word>) { Expiry? ==> outlook.Steady(sink, source) }
  }

  /** Times do not go back, and draws are in range. */
  predicate Possible(es: seq<Occurrence>, now: real, end: real) {
    if es == [] then now <= end
    else now <= es[0].tc && (es[0].Expiry? ==> 0.0 <= es[0].draw1 < 1.0) && Possible(es[1..], es[0].tc, end)
  }

  /** No report is ever given up after part of it has been put in the buffer. */
  predicate AlwaysSteady(es: seq<Occurrence>, sink: Option<word>, source: Option<word>) {
    es == [] || (es[0].Steady(sink, source) && AlwaysSteady(es[1..], sink, source))
  }

  predicate MediaFrom(es: seq<Occurrence>, heard: set<word>) {
    es == [] || ((es[0].Media? ==> es[0].ssrc in heard) && MediaFrom(es[1..], heard))
  }

  /**
   Whatever happens, in whatever order, until the session ends: no two reports
   go out closer together than the least gap, the count of members stays
   right, and the last packet is a BYE. Every packet, with whatever was left in
   the buffer before, is understood if and only if each report in it is on
   fewer than 32 sources and it fits; see `AsDue`. Nothing is ever left in the
   buffer unless a source's reports are turned off while a sink's are not.
   */
  method Run(sink: Option<word>, source: Option<word>, cname: Item, kbps: nat, tc: real, es: seq<Occurrence>,
    end: real, last: Outlook, ghost heard: set<word>)
    returns (p: Participant)
    requires kbps > 0 && Possible(es, tc, end)
    ensures fresh(p) && p.Valid() && p.session.sink == sink && p.session.source == source && p.session.cname == cname
    ensures Spaced(Stamps(p.session.sent)) && Spaced(p.timer.sends)
    ensures p.session.members.Valid(p.session.reportCount)
    ensures exists before :: SentOne(before, p.session.sent, end, false)
    ensures forall q <- p.session.sent :: AsDue(sink, source, cname, q)
    ensures AlwaysSteady(es, sink, source) ==> forall q <- p.session.sent :: q.clean
    ensures MediaFrom(es, heard) ==> forall q <- p.session.sent :: q.sources <= |heard| && AtMost(q.reports, |heard|)
  {
    p := RunOpen(sink, source, cname, kbps, tc, es, end, heard);
    p.Close(end, last, heard);
  }

  /** The same, up to the end of the session. */
  method RunOpen(sink: Option<word>, source: Option<word>, cname: Item, kbps: nat, tc: real, es: seq<Occurrence>,
    ghost end: real, ghost heard: set<word>)
    returns (p: Participant)
    requires kbps > 0 && Possible(es, tc, end)
    ensures fresh(p) && p.Valid() && p.timer.now <= end && p.session.sink == sink && p.session.source == source
            && p.session.cname == cname
    ensures fresh(p.timer) && fresh(p.session) && fresh(p.session.db) && fresh(p.session.db.table.Values)
            && fresh(p.session.members) && fresh(p.session.out)
    ensures AlwaysSteady(es, sink, source) ==> Clean(p.session.pending, p.session.sent)
    ensures MediaFrom(es, heard) ==> Heard(p.session.db.contents, p.session.pending, p.session.sent, heard)
  {
    p := new Participant(sink, source, cname, kbps, tc);
    ghost var on, known := AlwaysSteady(es, sink, source), MediaFrom(es, heard);
    var i := 0;
    while i < |es|
      invariant i <= |es| && fresh(p) && p.Valid() && Possible(es[i..], p.timer.now, end) && p.session.sink == sink
                && p.session.source == source && p.session.cname == cname
      invariant fresh(p.timer) && fresh(p.session) && fresh(p.session.db) && fresh(p.session.db.table.Values)
                && fresh(p.session.members) && fresh(p.session.out)
      invariant on ==> AlwaysSteady(es[i..], sink, source) && Clean(p.session.pending, p.session.sent)
      invariant known ==>
                MediaFrom(es[i..], heard) && Heard(p.session.db.contents, p.session.pending, p.session.sent, heard)
    {
      assert es[i..][1..] == es[i + 1..];
      p.Happen(es[i], heard);
      i := i + 1;
    }
  }
}
