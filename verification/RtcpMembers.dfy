/** The members of an RTCP session, each stamped with the report count when it was last heard from. */
module RtcpMembers {
  import opened Octets

  /** Members whose stamp is at least `threshold`. */
  function Fresh(t: map<word, nat>, threshold: int): map<word, nat> {
    map s | s in t && t[s] >= threshold :: t[s]
  }

  /** After report `count`: every fifth time, members not heard from during the last five are dropped. */
  function Reaped(t: map<word, nat>, count: nat): map<word, nat> {
    if count % 5 == 0 then Fresh(t, count - 5) else t
  }

  /** Who has been silent for five reports is still a member; who has been for ten is not. */
  lemma SilentDropped(t: map<word, nat>, s: word) returns (last: nat)
    requires s in t
    ensures forall n | t[s] <= n <= t[s] + 5 :: s in Reaped(t, n) && Reaped(t, n)[s] == t[s]
    ensures t[s] + 5 < last <= t[s] + 10 && s !in Reaped(t, last)
  {
    last := t[s] + (10 - t[s] % 5);
    Fives(t[s]);
  }

  lemma Fives(n: nat)
    ensures (n + (10 - n % 5)) % 5 == 0
  {
  }

  class MemberDatabase {
    var table: map<word, nat>
    var numMembers: nat         // ourselves included

    constructor ()
      ensures table == map[] && Valid(0)
    {
      table, numMembers := map[], 1;
    }

    /** The count is right, and no stamp is 0: a stamp looked up is then never taken for a missing one. */
    ghost predicate Valid(now: nat)
      reads this
    {
      numMembers == 1 + |table| && forall s <- table :: 1 <= table[s] <= now
    }

    /** The stamp stored for a member, or 0. */
    function Lookup(ssrc: word): nat
      reads this
    {
      if ssrc in table then table[ssrc] else 0
    }

    predicate IsMember(ssrc: word)
      reads this
    {
      Lookup(ssrc) != 0
    }

    lemma MemberIff(ssrc: word, now: nat)
      requires Valid(now)
      ensures IsMember(ssrc) <==> ssrc in table
    {
    }

    method NoteMembership(ssrc: word, stamp: nat) returns (isNew: bool)
      requires Valid(stamp) && stamp >= 1
      modifies this
      ensures Valid(stamp) && table == old(table)[ssrc := stamp]
      ensures isNew <==> ssrc !in old(table)
    {
      isNew := !IsMember(ssrc);
      if isNew {
        numMembers := numMembers + 1;
      }
      table := table[ssrc := stamp];
    }

    method Remove(ssrc: word, ghost now: nat) returns (wasPresent: bool)
      requires Valid(now)
      modifies this
      ensures Valid(now) && table == old(table) - {ssrc}
      ensures wasPresent <==> ssrc in old(table)
    {
      wasPresent := ssrc in table;
      table := table - {ssrc};
      if wasPresent {
        numMembers := numMembers - 1;
      }
    }

    /**
     Goes through the table, in whatever order, for a member older than `threshold`. A
     stamp of 0 would end the search.
     */
    method FindOld(threshold: nat, ghost now: nat) returns (found: bool, ssrc: word)
      requires Valid(now)
      ensures found ==> ssrc in table && table[ssrc] < threshold
      ensures !found ==> forall s <- table :: table[s] >= threshold
    {
      found, ssrc := false, 0;
      var left := table.Keys;
      while left != {}
        invariant left <= table.Keys
        invariant found ==> ssrc in table && table[ssrc] < threshold
        invariant !found ==> forall s | s in table && s !in left :: table[s] >= threshold
      {
        var s :| s in left;
        left := left - {s};
        var timeCount := Lookup(s);
        if timeCount == 0 {
          break;
        }
        if timeCount < threshold {
          found, ssrc := true, s;
        }
      }
    }
  }
}
