/**
 The node's cache of acknowledged commands (AckCache.h): a replayed command is
 answered again only once its first ack can no longer be in flight.
 */
module AckCache {
  import opened Machine

  // 16 copy strides and one 60-byte downlink's time on air.
  const BURST_SPAN_US: int := 16 * 88000 + 43072
  const MIN_REACK_INTERVAL_US: int := 2000000
  const MAX_REACKS: int := 3
  const ENTRIES: nat := 4

  datatype Decision = NotADuplicate | SilentCopy | ReAck | Exhausted

  datatype Entry = Entry(valid: bool, msgid: u32, firstSeenUs: int, lastReackUs: int, reacks: nat, stamp: u32)

  const EMPTY := Entry(false, 0, 0, 0, 0, 0)

  type Entries = es: seq<Entry> | |es| == ENTRIES witness [EMPTY, EMPTY, EMPTY, EMPTY]

  /** The value of a cache: its four entries and the next insertion stamp. */
  datatype Cache = Cache(entries: Entries, nextStamp: u32)

  function Cleared(): Cache {
    Cache([EMPTY, EMPTY, EMPTY, EMPTY], 1)
  }

  ghost predicate Holds(es: seq<Entry>, i: int, id: u32) {
    0 <= i < |es| && es[i].valid && es[i].msgid == id
  }

  /** Lowest index from i on holding id, or |es|. */
  function FindFrom(es: seq<Entry>, id: u32, i: nat): (r: nat)
    requires i <= |es|
    ensures i <= r <= |es|
    ensures r < |es| ==> Holds(es, r, id)
    ensures forall k :: i <= k < r ==> !Holds(es, k, id)
    decreases |es| - i
  {
    if i == |es| || (es[i].valid && es[i].msgid == id) then i else FindFrom(es, id, i + 1)
  }

  function Find(c: Cache, id: u32): (r: nat)
    ensures r <= |c.entries|
  {
    FindFrom(c.entries, id, 0)
  }

  function FreeFrom(es: seq<Entry>, i: nat): (r: nat)
    requires i <= |es|
    ensures i <= r <= |es|
    ensures r < |es| ==> !es[r].valid
    ensures forall k :: i <= k < r ==> es[k].valid
    decreases |es| - i
  {
    if i == |es| || !es[i].valid then i else FreeFrom(es, i + 1)
  }

  /** Index of the oldest stamp among [0, n), the lowest on a tie. */
  function OldestUpTo(es: seq<Entry>, n: nat): (r: nat)
    requires 0 < n <= |es|
    ensures r < n
    ensures forall k :: 0 <= k < n ==> es[r].stamp <= es[k].stamp
    ensures forall k :: 0 <= k < r ==> es[r].stamp < es[k].stamp
  {
    if n == 1 then 0
    else
      var r := OldestUpTo(es, n - 1);
      if es[n - 1].stamp < es[r].stamp then n - 1 else r
  }

  /** Where a new command goes: a free entry, or the place of the oldest. */
  function SlotFor(c: Cache): nat {
    var free := FreeFrom(c.entries, 0);
    if free < |c.entries| then free else OldestUpTo(c.entries, |c.entries|)
  }

  function Note(c: Cache, id: u32, nowUs: int): Cache {
    if Find(c, id) < |c.entries| then c
    else Cache(c.entries[SlotFor(c) := Entry(true, id, nowUs, 0, 0, c.nextStamp)], Wrap32(c.nextStamp + 1))
  }

  function Classify(c: Cache, id: u32, nowUs: int): Decision {
    var i := Find(c, id);
    if i == |c.entries| then NotADuplicate
    else
      var e := c.entries[i];
      if nowUs - e.firstSeenUs < BURST_SPAN_US then SilentCopy
      else if e.reacks >= MAX_REACKS then Exhausted
      else if e.lastReackUs != 0 && nowUs - e.lastReackUs < MIN_REACK_INTERVAL_US then SilentCopy
      else ReAck
  }

  function NoteReAck(c: Cache, id: u32, nowUs: int): Cache {
    var i := Find(c, id);
    if i == |c.entries| then c
    else
      var e := c.entries[i];
      var acked := e.(lastReackUs := nowUs, reacks := if e.reacks < 255 then e.reacks + 1 else e.reacks);
      c.(entries := c.entries[i := acked])
  }

  class AckCache {
    const entries: array<Entry>
    var nextStamp: u32

    ghost predicate Valid()
      reads this, entries
    {
      entries.Length == ENTRIES
    }

    ghost function Value(): Cache
      requires Valid()
      reads this, entries
    {
      Cache(entries[..], nextStamp)
    }

    constructor ()
      ensures Valid() && fresh(entries) && Value() == Cleared()
    {
      entries := new Entry[ENTRIES](_ => EMPTY);
      nextStamp := 1;
    }

    method Reset()
      requires Valid()
      modifies this, entries
      ensures Valid() && Value() == Cleared()
    {
      for i := 0 to ENTRIES
        invariant forall k :: 0 <= k < i ==> entries[k] == EMPTY
      {
        entries[i] := EMPTY;
      }
      nextStamp := 1;
    }

    method FindIndex(id: u32) returns (r: nat)
      requires Valid()
      ensures r == Find(Value(), id)
    {
      r := 0;
      while r < ENTRIES
        invariant r <= ENTRIES
        invariant FindFrom(entries[..], id, 0) == FindFrom(entries[..], id, r)
      {
        if entries[r].valid && entries[r].msgid == id {
          return;
        }
        r := r + 1;
      }
    }

    method NoteAccepted(id: u32, nowUs: int)
      requires Valid()
      modifies this, entries
      ensures Valid() && Value() == Note(old(Value()), id, nowUs)
    {
      var found := FindIndex(id);
      if found < ENTRIES {
        return;
      }
      var slot := 0;
      while slot < ENTRIES && entries[slot].valid
        invariant slot <= ENTRIES
        invariant FreeFrom(entries[..], 0) == FreeFrom(entries[..], slot)
      {
        slot := slot + 1;
      }
      if slot == ENTRIES {
        slot := 0;
        for i := 1 to ENTRIES
          invariant slot == OldestUpTo(entries[..], i)
        {
          if entries[i].stamp < entries[slot].stamp {
            slot := i;
          }
        }
      }
      entries[slot] := Entry(true, id, nowUs, 0, 0, nextStamp);
      nextStamp := Wrap32(nextStamp + 1);
    }

    method ClassifyReplay(id: u32, nowUs: int) returns (d: Decision)
      requires Valid()
      ensures d == Classify(Value(), id, nowUs)
    {
      var i := FindIndex(id);
      if i == ENTRIES {
        return NotADuplicate;
      }
      var e := entries[i];
      if nowUs - e.firstSeenUs < BURST_SPAN_US {
        return SilentCopy;
      }
      if e.reacks >= MAX_REACKS {
        return Exhausted;
      }
      if e.lastReackUs != 0 && nowUs - e.lastReackUs < MIN_REACK_INTERVAL_US {
        return SilentCopy;
      }
      return ReAck;
    }

    method RecordReAck(id: u32, nowUs: int)
      requires Valid()
      modifies entries
      ensures Valid() && Value() == NoteReAck(old(Value()), id, nowUs)
    {
      var i := FindIndex(id);
      if i == ENTRIES {
        return;
      }
      var e := entries[i];
      entries[i] := e.(lastReackUs := nowUs, reacks := if e.reacks < 255 then e.reacks + 1 else e.reacks);
    }
  }

  // ---- what the four places remember ----------------------------------------

  /** Stamps of used places are distinct and below the next one (which has not wrapped). */
  ghost predicate Stamped(c: Cache) {
    && (forall i :: 0 <= i < ENTRIES && c.entries[i].valid ==> c.entries[i].stamp < c.nextStamp)
    && (forall i, j :: 0 <= i < j < ENTRIES && c.entries[i].valid && c.entries[j].valid ==>
          c.entries[i].stamp != c.entries[j].stamp && c.entries[i].msgid != c.entries[j].msgid)
  }

  /** How many commands were noted after the one at place i. */
  function Younger(c: Cache, i: nat): nat
    requires i < ENTRIES
  {
    YoungerThan(c.entries[0], c.entries[i].stamp) + YoungerThan(c.entries[1], c.entries[i].stamp)
    + YoungerThan(c.entries[2], c.entries[i].stamp) + YoungerThan(c.entries[3], c.entries[i].stamp)
  }

  function YoungerThan(e: Entry, stamp: u32): nat {
    if e.valid && e.stamp > stamp then 1 else 0
  }

  /** A new command takes its place as the youngest. */
  lemma NoteKeepsStamped(c: Cache, id: u32, nowUs: int)
    requires Stamped(c) && c.nextStamp < U32_MOD - 1 && Find(c, id) == ENTRIES
    ensures Stamped(Note(c, id, nowUs)) && Note(c, id, nowUs).nextStamp == c.nextStamp + 1
  {
    var slot, d := SlotFor(c), Note(c, id, nowUs);
    forall k | 0 <= k < ENTRIES && c.entries[k].valid
      ensures c.entries[k].msgid != id
    {
      assert !Holds(c.entries, k, id);
    }
    assert d.entries[slot].stamp == c.nextStamp && d.entries[slot].msgid == id;
    assert forall k :: 0 <= k < ENTRIES && k != slot ==> d.entries[k] == c.entries[k];
  }

  /** A full cache with somebody older than place i does not evict place i. */
  lemma NoteSparesTheYoung(c: Cache, id: u32, nowUs: int, i: nat)
    requires Stamped(c) && c.nextStamp < U32_MOD - 1 && i < ENTRIES && c.entries[i].valid && Younger(c, i) < 3
    ensures var d := Note(c, id, nowUs);
            Stamped(d) && d.entries[i] == c.entries[i] && Younger(d, i) <= Younger(c, i) + 1
            && d.nextStamp <= c.nextStamp + 1
  {
    if Find(c, id) == ENTRIES {
      var slot := SlotFor(c);
      NotOldest(c, i);
      NoteKeepsStamped(c, id, nowUs);
      assert slot != i;
    }
  }

  lemma NotOldest(c: Cache, i: nat)
    requires Stamped(c) && i < ENTRIES && c.entries[i].valid && Younger(c, i) < 3
    ensures SlotFor(c) != i
  {
    var free := FreeFrom(c.entries, 0);
    if free == ENTRIES {
      assert c.entries[0].valid && c.entries[1].valid && c.entries[2].valid && c.entries[3].valid;
      var oldest := OldestUpTo(c.entries, ENTRIES);
      assert c.entries[oldest].stamp <= c.entries[0].stamp && c.entries[oldest].stamp <= c.entries[1].stamp
          && c.entries[oldest].stamp <= c.entries[2].stamp && c.entries[oldest].stamp <= c.entries[3].stamp;
    }
  }

  datatype Arrival = Arrival(id: u32, atUs: int)

  function NoteAll(c: Cache, more: seq<Arrival>): Cache
    decreases |more|
  {
    if more == [] then c else NoteAll(Note(c, more[0].id, more[0].atUs), more[1..])
  }

  lemma {:induction false} StaysRemembered(c: Cache, i: nat, more: seq<Arrival>)
    requires Stamped(c) && i < ENTRIES && c.entries[i].valid && Younger(c, i) + |more| <= 3
    requires c.nextStamp + |more| < U32_MOD
    ensures var d := NoteAll(c, more); Stamped(d) && d.entries[i] == c.entries[i]
    decreases |more|
  {
    if more != [] {
      NoteSparesTheYoung(c, more[0].id, more[0].atUs, i);
      StaysRemembered(Note(c, more[0].id, more[0].atUs), i, more[1..]);
    }
  }

  lemma YoungestOfAll(c: Cache, i: nat)
    requires Stamped(c) && i < ENTRIES && c.entries[i].valid && c.entries[i].stamp == c.nextStamp - 1
    ensures Younger(c, i) == 0
  {
    assert forall k :: 0 <= k < ENTRIES && c.entries[k].valid ==> c.entries[k].stamp <= c.entries[i].stamp;
  }

  lemma FoundWhereItIs(c: Cache, i: nat)
    requires Stamped(c) && i < ENTRIES && c.entries[i].valid
    ensures Find(c, c.entries[i].msgid) == i
  {
    var at := Find(c, c.entries[i].msgid);
    assert Holds(c.entries, i, c.entries[i].msgid);
  }

  /** A command just noted is still found after any three more, with the instant of its
      first acceptance: a lost ack stays recoverable although other commands came in between. */
  lemma FourAreRemembered(c: Cache, id: u32, nowUs: int, more: seq<Arrival>)
    requires Stamped(c) && c.nextStamp + 1 + |more| < U32_MOD && |more| <= 3 && Find(c, id) == ENTRIES
    ensures var d := NoteAll(Note(c, id, nowUs), more);
            Find(d, id) < ENTRIES && d.entries[Find(d, id)] == Entry(true, id, nowUs, 0, 0, c.nextStamp)
  {
    var slot := SlotFor(c);
    var n := Note(c, id, nowUs);
    NoteKeepsStamped(c, id, nowUs);
    YoungestOfAll(n, slot);
    StaysRemembered(n, slot, more);
    FoundWhereItIs(NoteAll(n, more), slot);
  }
}
