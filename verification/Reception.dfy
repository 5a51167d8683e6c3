/**
 Reception statistics of an RTP source: 16-bit sequence numbers are extended
 to 32 bits (appendix A.1 of RFC 3550), and the table keeps count of the
 sources heard from since the last report.
 */
module Reception {
  import opened Octets

  type SeqNum = n: nat | n < 0x1_0000

  /** One record of the table, as a value. Packet counters are unbounded. */
  datatype Stats = Stats(
    ssrc: word,
    sinceReset: nat,        // packets since the last reset
    total: nat,
    seenInitial: bool,
    base: word,             // lowest and highest extended sequence number
    highest: word,
    lastReset: word,        // highest at the last reset
    srMsw: word,            // NTP time of the last sender report
    srLsw: word)

  function NewStats(ssrc: word): Stats {
    Stats(ssrc, 0, 0, false, 0, 0, 0, 0, 0)
  }

  /** Less-than on 16-bit sequence numbers. */
  function SeqNumLT(s1: SeqNum, s2: SeqNum): (r: bool)
    ensures r <==> 0 < (s2 - s1) % 0x1_0000 < 0x8000
  {
    var diff := s2 - s1;
    if diff > 0 then diff < 0x8000
    else if diff < 0 then diff < -0x8000
    else false
  }

  function InitSeqNum(s: Stats, seqNum: SeqNum): Stats {
    s.(base := 0x1_0000 + seqNum, highest := 0x1_0000 + seqNum, seenInitial := true)
  }

  /** The extended number given to `seqNum` when it is newer than the highest so far, wrapping at 32 bits. */
  function Newer(highest: word, seqNum: SeqNum): word {
    var cycle := highest - highest % 0x1_0000;
    var next := if seqNum - highest % 0x1_0000 >= 0 then cycle else (cycle + 0x1_0000) % 0x1_0000_0000;
    next + seqNum
  }

  /** The extended number given to an old one. */
  function Older(highest: word, seqNum: SeqNum): word {
    var cycle := highest - highest % 0x1_0000;
    var previous := if seqNum - highest % 0x1_0000 >= 0x8000 then (cycle - 0x1_0000) % 0x1_0000_0000 else cycle;
    previous + seqNum
  }

  function Noted(before: Stats, seqNum: SeqNum): Stats {
    var first := if before.seenInitial then before else InitSeqNum(before, seqNum);
    var s := first.(sinceReset := first.sinceReset + 1, total := first.total + 1);
    if SeqNumLT(s.highest % 0x1_0000, seqNum) then
      var n := Newer(s.highest, seqNum);
      if n > s.highest then s.(highest := n) else s
    else if s.total > 1 then
      var n := Older(s.highest, seqNum);
      if n < s.base then s.(base := n) else s
    else s
  }

  // ----- unwrapping -----

  /** The extended number the code works with for `seqNum`. */
  function Unwrap(highest: word, seqNum: SeqNum): word {
    if SeqNumLT(highest % 0x1_0000, seqNum) then Newer(highest, seqNum) else Older(highest, seqNum)
  }

  /** A number up to half a cycle ahead is taken as newer, and recovered. */
  lemma NewerRecovered(h: word, v: word)
    requires h < v < h + 0x8000
    ensures SeqNumLT(h % 0x1_0000, v % 0x1_0000) && Newer(h, v % 0x1_0000) == v
  {
  }

  /** A number up to half a cycle behind is taken as old, and recovered. */
  lemma OlderRecovered(h: word, v: word)
    requires h - 0x8000 <= v <= h
    ensures !SeqNumLT(h % 0x1_0000, v % 0x1_0000) && Older(h, v % 0x1_0000) == v
  {
  }

  /** A true number is recovered from its low 16 bits exactly when it lies within half a cycle of the highest. */
  lemma UnwrapIff(cycles: int, highest: int, t: int)
    requires 0x1_0000 <= 0x1_0000 * cycles + highest && 0x1_0000 * cycles + highest + 0x8000 < 0x1_0000_0000
    ensures Unwrap(0x1_0000 * cycles + highest, t % 0x1_0000) == 0x1_0000 * cycles + t <==>
            highest - 0x8000 <= t < highest + 0x8000
  {
  }

  function Max(ts: seq<int>): (m: int)
    requires ts != []
    ensures m in ts && forall t <- ts :: t <= m
  {
    var n := |ts| - 1;
    if n == 0 then ts[0] else
      var m := Max(ts[..n]);
      assert ts == ts[..n] + [ts[n]];
      if ts[n] > m then ts[n] else m
  }

  function Min(ts: seq<int>): (m: int)
    requires ts != []
    ensures m in ts && forall t <- ts :: m <= t
  {
    var n := |ts| - 1;
    if n == 0 then ts[0] else
      var m := Min(ts[..n]);
      assert ts == ts[..n] + [ts[n]];
      if ts[n] < m then ts[n] else m
  }

  /** Each packet arrives within half a cycle of the highest before it. */
  ghost predicate Orderly(ts: seq<int>) {
    forall i | 0 < i < |ts| :: Max(ts[..i]) - 0x8000 <= ts[i] < Max(ts[..i]) + 0x8000
  }

  /** The record after packets with these true sequence numbers, of which only 16 bits are seen. */
  function After(ssrc: word, ts: seq<int>): Stats {
    if ts == [] then NewStats(ssrc) else Noted(After(ssrc, ts[..|ts| - 1]), ts[|ts| - 1] % 0x1_0000)
  }

  /** Extended numbers run from `0x10000 + ts[0] % 0x10000`; they stay below 2^32. */
  predicate NoOverflow(ts: seq<int>)
    requires ts != []
  {
    0x1_0000 * (1 - ts[0] / 0x1_0000) + Max(ts) < 0x1_0000_0000
  }

  /** The record holds the true range of sequence numbers, moved by a whole number of cycles. */
  lemma {:induction false} RangeRecovered(ssrc: word, ts: seq<int>)
    requires ts != [] && Orderly(ts) && NoOverflow(ts)
    ensures var s := After(ssrc, ts);
            var shift := 0x1_0000 * (1 - ts[0] / 0x1_0000);
            && s.highest == shift + Max(ts) && s.base == shift + Min(ts)
            && s.highest - s.base == Max(ts) - Min(ts)
            && s.seenInitial && s.total == |ts|
  {
    var n := |ts| - 1;
    if n > 0 {
      var before := ts[..n];
      OrderlyBefore(ts);
      RangeRecovered(ssrc, before);
      StepRecovered(After(ssrc, before), 1 - ts[0] / 0x1_0000, Max(before), Min(before), ts[n]);
    } else {
      assert After(ssrc, ts[..0]) == NewStats(ssrc);
    }
  }

  lemma OrderlyBefore(ts: seq<int>)
    requires |ts| > 1 && Orderly(ts) && NoOverflow(ts)
    ensures var before := ts[..|ts| - 1];
            && Orderly(before) && NoOverflow(before) && before[0] == ts[0]
            && Max(before) - 0x8000 <= ts[|ts| - 1] < Max(before) + 0x8000
            && Min(before) <= ts[0] <= Max(before)
            && 0x1_0000 * (1 - ts[0] / 0x1_0000) + ts[0] >= 0x1_0000
  {
    var before := ts[..|ts| - 1];
    assert forall i | 0 < i < |before| :: before[..i] == ts[..i];
    assert before[0] in before;
  }

  lemma StepRecovered(s: Stats, cycles: int, highest: int, lowest: int, t: int)
    requires s.seenInitial && s.total > 0
    requires s.highest == 0x1_0000 * cycles + highest && s.base == 0x1_0000 * cycles + lowest
    requires lowest <= highest && s.highest >= 0x1_0000
    requires highest - 0x8000 <= t < highest + 0x8000 && 0x1_0000 * cycles + t < 0x1_0000_0000
    ensures var r := Noted(s, t % 0x1_0000);
            && r.highest == 0x1_0000 * cycles + (if t > highest then t else highest)
            && r.base == 0x1_0000 * cycles + (if t < lowest then t else lowest)
            && r.seenInitial && r.total == s.total + 1
  {
    var v := 0x1_0000 * cycles + t;
    assert v % 0x1_0000 == t % 0x1_0000;
    if t > highest {
      NewerRecovered(s.highest, v);
    } else {
      OlderRecovered(s.highest, v);
    }
  }

  /** Whatever arrives, the highest extended number never goes down. */
  lemma {:induction false} HighestGrows(ssrc: word, ts: seq<int>, i: nat)
    requires i <= |ts|
    ensures After(ssrc, ts[..i]).highest <= After(ssrc, ts).highest
  {
    if i < |ts| {
      var n := |ts| - 1;
      HighestGrows(ssrc, ts[..n], i);
      assert ts[..n][..i] == ts[..i];
      SeenAfter(ssrc, ts[..n]);
    } else {
      assert ts[..i] == ts;
    }
  }

  lemma {:induction false} SeenAfter(ssrc: word, ts: seq<int>)
    ensures After(ssrc, ts).seenInitial <==> ts != []
    ensures ts == [] ==> After(ssrc, ts).highest == 0
  {
  }

  // ----- one record -----

  class ReceptionStats {
    var now: Stats

    /** The initial sequence number is lost again at once: `Init` clears it. */
    constructor (ssrc: word, initialSeqNum: SeqNum)
      ensures now == NewStats(ssrc)
    {
      now := InitSeqNum(NewStats(ssrc), initialSeqNum);
      new;
      Init(ssrc);
    }

    constructor ForReport(ssrc: word)
      ensures now == NewStats(ssrc)
    {
      now := NewStats(ssrc);
    }

    method Init(ssrc: word)
      modifies this
      ensures now == NewStats(ssrc)
    {
      now := now.(ssrc := ssrc, total := 0, base := 0, highest := 0, seenInitial := false, srMsw := 0, srLsw := 0);
      Reset();
    }

    method NoteIncomingPacket(seqNum: SeqNum)
      modifies this
      ensures now == Noted(old(now), seqNum)
    {
      if !now.seenInitial {
        now := now.(base := 0x1_0000 + seqNum, highest := 0x1_0000 + seqNum, seenInitial := true);
      }
      now := now.(sinceReset := now.sinceReset + 1, total := now.total + 1);
      var low := now.highest % 0x1_0000;
      var cycle := now.highest - low;
      var difference := seqNum - low;
      if SeqNumLT(low, seqNum) {
        if difference < 0 || difference >= 0x8000 {
          cycle := (cycle + 0x1_0000) % 0x1_0000_0000;
        }
        var n := cycle + seqNum;
        if n > now.highest {
          now := now.(highest := n);
        }
      } else if now.total > 1 {
        if difference >= 0x8000 {
          cycle := (cycle - 0x1_0000) % 0x1_0000_0000;
        }
        var n := cycle + seqNum;
        if n < now.base {
          now := now.(base := n);
        }
      }
    }

    method NoteIncomingSR(msw: word, lsw: word)
      modifies this
      ensures now == old(now).(srMsw := msw, srLsw := lsw)
    {
      now := now.(srMsw := msw, srLsw := lsw);
    }

    method Reset()
      modifies this
      ensures now == old(now).(sinceReset := 0, lastReset := old(now.highest))
    {
      now := now.(sinceReset := 0, lastReset := now.highest);
    }
  }

  // ----- the table -----

  type Table = map<word, Stats>

  /** Sources heard from since the last reset. */
  function Active(t: Table): set<word> {
    set s | s in t && t[s].sinceReset > 0
  }

  function Record(t: Table, ssrc: word): Stats {
    if ssrc in t then t[ssrc] else NewStats(ssrc)
  }

  /** A packet is noted; the record is made if there is none. */
  function TableNoted(t: Table, ssrc: word, seqNum: SeqNum): Table {
    t[ssrc := Noted(Record(t, ssrc), seqNum)]
  }

  function TableReported(t: Table, ssrc: word, msw: word, lsw: word): Table {
    t[ssrc := Record(t, ssrc).(srMsw := msw, srLsw := lsw)]
  }

  lemma RecordFirst(t: Table, ssrc: word)
    ensures forall seqNum ::
            t[ssrc := Record(t, ssrc)][ssrc := Noted(Record(t, ssrc), seqNum)] == TableNoted(t, ssrc, seqNum)
    ensures forall msw, lsw ::
            t[ssrc := Record(t, ssrc)][ssrc := Record(t, ssrc).(srMsw := msw, srLsw := lsw)]
            == TableReported(t, ssrc, msw, lsw)
  {
  }

  lemma ActiveRemoved(t: Table, ssrc: word)
    ensures |Active(t - {ssrc})| == |Active(t)| <==> ssrc !in Active(t)
  {
    assert Active(t - {ssrc}) == Active(t) - {ssrc};
  }

  function ResetOne(s: Stats): Stats {
    if s.sinceReset > 0 then s.(sinceReset := 0, lastReset := s.highest) else s
  }

  function ResetAll(t: Table): Table {
    map s | s in t :: ResetOne(t[s])
  }

  lemma ResetQuiet(t: Table)
    ensures Active(ResetAll(t)) == {}
  {
  }

  /** Each record carries its key. */
  ghost predicate Labelled(t: Table) {
    forall s <- t :: t[s].ssrc == s
  }

  lemma LabelledNoted(t: Table, ssrc: word, seqNum: SeqNum)
    requires Labelled(t)
    ensures Labelled(TableNoted(t, ssrc, seqNum))
  {
  }

  lemma LabelledReported(t: Table, ssrc: word, msw: word, lsw: word)
    requires Labelled(t)
    ensures Labelled(TableReported(t, ssrc, msw, lsw))
  {
  }

  lemma LabelledReset(t: Table)
    requires Labelled(t)
    ensures Labelled(ResetAll(t))
  {
  }

  /** Taking records out of a table in which none is active. */
  lemma QuietRemoved(t: Table, gone: set<word>)
    requires Labelled(t)
    ensures Labelled(t - gone) && (Active(t) == {} ==> Active(t - gone) == {})
  {
  }

  /** A packet makes its source active and no other. */
  lemma ActiveNoted(t: Table, ssrc: word, seqNum: SeqNum)
    ensures Active(TableNoted(t, ssrc, seqNum)) == Active(t) + {ssrc}
    ensures |Active(TableNoted(t, ssrc, seqNum))| == |Active(t)| + if Record(t, ssrc).sinceReset == 0 then 1 else 0
  {
    var before, after := Active(t), Active(TableNoted(t, ssrc, seqNum));
    assert TableNoted(t, ssrc, seqNum)[ssrc].sinceReset > 0;
    forall s
      ensures s in after <==> s in before + {ssrc}
    {
    }
    assert after == before + {ssrc};
    if ssrc in before {
      assert before + {ssrc} == before;
    }
    assert ssrc in before <==> Record(t, ssrc).sinceReset > 0;
  }

  /** All but those in `left` have been reset. */
  ghost predicate PartlyReset(before: Table, left: set<word>, t: Table) {
    t.Keys == before.Keys && forall s <- before :: t[s] == if s in left then before[s] else ResetOne(before[s])
  }

  /** A sender report makes no source active. */
  lemma ActiveReported(t: Table, ssrc: word, msw: word, lsw: word)
    ensures Active(TableReported(t, ssrc, msw, lsw)) == Active(t)
  {
  }

  class ReceptionStatsDB {
    var table: map<word, ReceptionStats>
    var numActive: nat              // active sources since the last reset
    ghost var contents: Table

    /** Each record is an object of its own. */
    ghost predicate Shape()
      reads this, table.Values
    {
      && (forall s, u | s in table && u in table && s != u :: table[s] != table[u])
      && table.Keys == contents.Keys
      && (forall s <- table :: table[s].now == contents[s])
    }

    /** The counter is the number of active records. */
    ghost predicate Valid()
      reads this, table.Values
    {
      Shape() && Counted()
    }

    ghost predicate Counted()
      reads this
    {
      numActive == |Active(contents)|
    }

    constructor ()
      ensures Valid() && contents == map[] && fresh(table.Values)
    {
      table, numActive, contents := map[], 0, map[];
    }

    /** The record of a source, made if there is none. */
    method Lookup(ssrc: word, seqNum: SeqNum) returns (stats: ReceptionStats)
      requires Shape()
      modifies this`table, this`contents
      ensures Shape() && ssrc in table && stats == table[ssrc] && fresh(table.Values - old(table.Values))
      ensures contents == old(contents)[ssrc := Record(old(contents), ssrc)]
    {
      if ssrc !in table {
        stats := new ReceptionStats(ssrc, seqNum);
        table := table[ssrc := stats];
        contents := contents[ssrc := NewStats(ssrc)];
      }
      stats := table[ssrc];
    }

    method NoteIncomingPacket(ssrc: word, seqNum: SeqNum)
      requires Valid()
      modifies this, table.Values
      ensures Valid() && fresh(table.Values - old(table.Values))
      ensures contents == TableNoted(old(contents), ssrc, seqNum)
    {
      ActiveNoted(contents, ssrc, seqNum);
      RecordFirst(contents, ssrc);
      Count(ssrc, seqNum);
      NoteIn(ssrc, seqNum);
    }

    /** Counts the source if it was not active. */
    method Count(ssrc: word, seqNum: SeqNum)
      requires Shape()
      modifies this
      ensures Shape() && ssrc in table && fresh(table.Values - old(table.Values))
      ensures contents == old(contents)[ssrc := Record(old(contents), ssrc)]
      ensures numActive == old(numActive) + if Record(old(contents), ssrc).sinceReset == 0 then 1 else 0
    {
      var stats := Lookup(ssrc, seqNum);
      if stats.now.sinceReset == 0 {
        numActive := numActive + 1;
      }
    }

    method NoteIn(ssrc: word, seqNum: SeqNum)
      requires Shape() && ssrc in table
      modifies this`contents, table[ssrc]
      ensures Shape() && contents == old(contents)[ssrc := Noted(old(contents)[ssrc], seqNum)]
    {
      table[ssrc].NoteIncomingPacket(seqNum);
      contents := contents[ssrc := table[ssrc].now];
    }

    method NoteIncomingSR(ssrc: word, msw: word, lsw: word)
      requires Valid()
      modifies this, table.Values
      ensures Valid() && fresh(table.Values - old(table.Values))
      ensures contents == TableReported(old(contents), ssrc, msw, lsw)
    {
      ActiveReported(contents, ssrc, msw, lsw);
      RecordFirst(contents, ssrc);
      var stats := Lookup(ssrc, 0);
      ReportIn(ssrc, msw, lsw);
    }

    method ReportIn(ssrc: word, msw: word, lsw: word)
      requires Shape() && ssrc in table
      modifies this`contents, table[ssrc]
      ensures Shape() && contents == old(contents)[ssrc := old(contents)[ssrc].(srMsw := msw, srLsw := lsw)]
    {
      table[ssrc].NoteIncomingSR(msw, lsw);
      contents := contents[ssrc := table[ssrc].now];
    }

    /** Goes through the active records in the order of the table, whichever that is. */
    method Reset()
      requires Shape()
      modifies this, table.Values
      ensures Valid() && table == old(table)
      ensures contents == ResetAll(old(contents))
    {
      ghost var before := contents;
      numActive := 0;
      var left := table.Keys;
      while left != {}
        invariant left <= table.Keys && table == old(table) && numActive == 0 && Shape()
        invariant PartlyReset(before, left, contents)
      {
        var ssrc :| ssrc in left;
        left := left - {ssrc};
        ResetIn(ssrc);
      }
      assert contents == ResetAll(before);
      ResetQuiet(before);
    }

    method ResetIn(ssrc: word)
      requires Shape() && ssrc in table
      modifies this`contents, table[ssrc]
      ensures Shape() && contents == old(contents)[ssrc := ResetOne(old(contents)[ssrc])]
    {
      if table[ssrc].now.sinceReset > 0 {
        table[ssrc].Reset();
      }
      contents := contents[ssrc := table[ssrc].now];
    }

    /** The counter is not touched, so it stays right exactly when the record was not an active one. */
    method RemoveRecord(ssrc: word)
      requires Shape()
      modifies this
      ensures Shape() && table.Values <= old(table.Values)
      ensures contents == old(contents) - {ssrc} && numActive == old(numActive)
      ensures old(Counted()) ==> (Counted() <==> ssrc !in old(Active(contents)))
    {
      if ssrc in table {
        table := table - {ssrc};
      }
      ActiveRemoved(contents, ssrc);
      contents := contents - {ssrc};
    }
  }
}
