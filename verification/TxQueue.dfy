/**
 The reordering, time-scheduled transmit queue (TxQueue.h): sixteen unordered
 places that stand for one list in insertion order.
 */
module TxQueue {
  import opened Machine

  const MAX_ENTRIES: nat := 16
  const INVALID_SLOT: int := 0xFF

  datatype Priority = Immediate | Normal | Background

  function Rank(p: Priority): nat {
    match p
    case Immediate => 0
    case Normal => 1
    case Background => 2
  }

  /** What a queued frame is, apart from where it is kept. */
  datatype Item = Item(slot: u8, earliestUs: int, priority: Priority)

  datatype Entry = Entry(item: Item, number: u32, used: bool)

  const EMPTY := Entry(Item(0xFF, 0, Normal), 0, false)

  // ---- the list the queue stands for ----------------------------------------

  /** Frame k is due at the limit, and no due frame has a better priority or, at the
      same priority, was pushed before it. */
  ghost predicate IsBest(items: seq<Item>, limit: int, k: int) {
    && 0 <= k < |items| && items[k].earliestUs <= limit
    && (forall j :: 0 <= j < |items| && items[j].earliestUs <= limit ==>
          Rank(items[k].priority) < Rank(items[j].priority)
          || (items[k].priority == items[j].priority && k <= j))
  }

  predicate AnyDue(items: seq<Item>, limit: int) {
    exists k :: 0 <= k < |items| && items[k].earliestUs <= limit
  }

  function Without(items: seq<Item>, k: nat): seq<Item>
    requires k < |items|
  {
    items[..k] + items[k + 1..]
  }

  /** `order` lists the used places, in push order. */
  ghost predicate Represents(es: seq<Entry>, order: seq<int>) {
    && |es| == MAX_ENTRIES && Distinct(order)
    && (forall k :: 0 <= k < |order| ==> 0 <= order[k] < |es| && es[order[k]].used)
    && (forall i :: 0 <= i < |es| && es[i].used ==> i in order)
  }

  /** The numbers grow in push order: what the code compares instead of the order. */
  ghost predicate Numbered(es: seq<Entry>, order: seq<int>)
    requires Represents(es, order)
  {
    forall j, k :: 0 <= j < k < |order| ==> es[order[j]].number < es[order[k]].number
  }

  ghost predicate AllBelow(es: seq<Entry>, order: seq<int>, number: int)
    requires Represents(es, order)
  {
    forall k :: 0 <= k < |order| ==> es[order[k]].number < number
  }

  lemma PushKeeps(es: seq<Entry>, order: seq<int>, number: u32, i: nat, item: Item)
    requires Represents(es, order) && i < |es| && !es[i].used
    ensures Represents(es[i := Entry(item, number, true)], order + [i])
    ensures ItemsAt(es[i := Entry(item, number, true)], order + [i]) == ItemsAt(es, order) + [item]
    ensures |order| < MAX_ENTRIES
  {
    DistinctAppend(order, i);
    FreePlaceLeft(order, i, MAX_ENTRIES);
  }

  /** A push keeps the numbers growing if and only if its own is above every live one. */
  lemma PushNumberedIff(es: seq<Entry>, order: seq<int>, number: u32, i: nat, item: Item)
    requires Represents(es, order) && i < |es| && !es[i].used
    ensures var (fs, next) := (es[i := Entry(item, number, true)], order + [i]);
            && Represents(fs, next)
            && (Numbered(fs, next) <==> Numbered(es, order) && AllBelow(es, order, number))
            && (AllBelow(es, order, number) ==> AllBelow(fs, next, number + 1))
  {
    PushKeeps(es, order, number, i, item);
    var fs, next := es[i := Entry(item, number, true)], order + [i];
    assert forall k :: 0 <= k < |order| ==> fs[next[k]] == es[order[k]];
    assert fs[next[|order|]].number == number;
    if Numbered(fs, next) {
      forall k | 0 <= k < |order|
        ensures es[order[k]].number < number
      {
        assert fs[next[k]].number < fs[next[|order|]].number;
      }
      forall j, k | 0 <= j < k < |order|
        ensures es[order[j]].number < es[order[k]].number
      {
        assert fs[next[j]].number < fs[next[k]].number;
      }
    }
  }

  function Left(order: seq<int>, k: nat): (r: seq<int>)
    requires k < |order|
    ensures |r| == |order| - 1 && forall i :: 0 <= i < |r| ==> r[i] == order[if i < k then i else i + 1]
  {
    order[..k] + order[k + 1..]
  }

  lemma PopKeeps(es: seq<Entry>, order: seq<int>, k: nat)
    requires Represents(es, order) && k < |order|
    ensures Represents(es[order[k] := EMPTY], Left(order, k))
    ensures ItemsAt(es[order[k] := EMPTY], Left(order, k)) == Without(ItemsAt(es, order), k)
    ensures Numbered(es, order) ==> Numbered(es[order[k] := EMPTY], Left(order, k))
    ensures forall n :: AllBelow(es, order, n) ==> AllBelow(es[order[k] := EMPTY], Left(order, k), n)
  {
    PopKeepsPlaces(es, order, k);
    var left := Left(order, k);
    var after := es[order[k] := EMPTY];
    forall i | 0 <= i < |left|
      ensures after[left[i]] == es[left[i]]
    {
      assert left[i] in left;
    }
  }

  lemma PopKeepsPlaces(es: seq<Entry>, order: seq<int>, k: nat)
    requires Represents(es, order) && k < |order|
    ensures Represents(es[order[k] := EMPTY], Left(order, k)) && order[k] !in Left(order, k)
  {
    LeftMembers(order, k);
    var left := Left(order, k);
    var after := es[order[k] := EMPTY];
    forall i | 0 <= i < |left|
      ensures 0 <= left[i] < |after| && left[i] != order[k] && after[left[i]] == es[left[i]]
    {
      assert left[i] in left;
    }
  }

  class Queue {
    const entries: array<Entry>
    var nextSeq: u32
    var count: nat
    ghost var order: seq<int>          // the used places, in push order

    ghost predicate Valid()
      reads this, entries
    {
      entries.Length == MAX_ENTRIES && count == |order| && Represents(entries[..], order)
    }

    /** Numbers compare as push order. */
    ghost predicate Sorted()
      requires Valid()
      reads this, entries
    {
      Numbered(entries[..], order)
    }

    /** The next number is above every live one: it has not wrapped since the oldest. */
    ghost predicate Ahead()
      requires Valid()
      reads this, entries
    {
      AllBelow(entries[..], order, nextSeq)
    }

    ghost function Contents(): (items: seq<Item>)
      requires Valid()
      reads this, entries
    {
      ItemsAt(entries[..], order)
    }

    constructor ()
      ensures Valid() && fresh(entries) && Contents() == [] && nextSeq == 0 && Sorted() && Ahead()
    {
      entries := new Entry[MAX_ENTRIES](_ => EMPTY);
      nextSeq, count, order := 0, 0, [];
    }

    /** The first free place, or sixteen. */
    method FreePlace() returns (i: nat)
      requires Valid()
      ensures i <= MAX_ENTRIES
      ensures i < MAX_ENTRIES ==> !entries[..][i].used
      ensures i == MAX_ENTRIES <==> |order| == MAX_ENTRIES
    {
      i := 0;
      while i < MAX_ENTRIES && entries[i].used
        invariant i <= MAX_ENTRIES
        invariant forall k :: 0 <= k < i ==> entries[..][k].used
      {
        i := i + 1;
      }
      if i == MAX_ENTRIES {
        AllPlacesUsed(order, MAX_ENTRIES);
        AtMostPlaces(order, MAX_ENTRIES);
      } else {
        assert !entries[..][i].used;
        PushKeeps(entries[..], order, 0, i, EMPTY.item);
      }
    }

    /** Appends to the list, and fails exactly when sixteen frames wait already (or the
        slot is the invalid one). Push order stays readable from the numbers exactly when
        the new number is above every live one. */
    method Push(item: Item) returns (ok: bool)
      requires Valid()
      modifies this, entries
      ensures Valid()
      ensures ok <==> item.slot != INVALID_SLOT && |old(Contents())| < MAX_ENTRIES
      ensures Contents() == if ok then old(Contents()) + [item] else old(Contents())
      ensures nextSeq == if ok then Wrap32(old(nextSeq) + 1) else old(nextSeq)
      ensures ok ==> (Sorted() <==> old(Sorted()) && old(Ahead()))
      ensures ok && old(Ahead()) && old(nextSeq) < U32_MOD - 1 ==> Ahead()
      ensures !ok ==> Sorted() == old(Sorted()) && Ahead() == old(Ahead())
    {
      AtMostPlaces(order, MAX_ENTRIES);
      if item.slot == INVALID_SLOT {
        return false;
      }
      var i := FreePlace();
      if i == MAX_ENTRIES {
        return false;
      }
      PushKeeps(entries[..], order, nextSeq, i, item);
      PushNumberedIff(entries[..], order, nextSeq, i, item);
      Store(i, item);
      return true;
    }

    /** The writes of push: the place, the number and the count. */
    method Store(i: nat, item: Item)
      requires entries.Length == MAX_ENTRIES && i < MAX_ENTRIES
      modifies this, entries
      ensures entries[..] == old(entries[..])[i := Entry(item, old(nextSeq), true)]
      ensures nextSeq == Wrap32(old(nextSeq) + 1) && count == old(count) + 1 && order == old(order) + [i]
    {
      entries[i] := Entry(item, nextSeq, true);
      nextSeq := Wrap32(nextSeq + 1);
      count := count + 1;
      order := order + [i];
    }

    method Place(i: nat, e: Entry)
      requires entries.Length == MAX_ENTRIES && i < MAX_ENTRIES
      modifies entries
      ensures entries[..] == old(entries[..])[i := e]
    {
      entries[i] := e;
    }

    /** The search of popDue: the best due place, or -1. */
    method FindBest(limit: int) returns (best: int)
      requires Valid()
      ensures -1 <= best < MAX_ENTRIES
      ensures best == -1 ==> forall j :: 0 <= j < MAX_ENTRIES ==> !DueAt(entries[..][j], limit)
      ensures best >= 0 ==> BestPlace(entries[..], limit, best)
    {
      best := -1;
      for i := 0 to MAX_ENTRIES
        invariant -1 <= best < i
        invariant best == -1 ==> forall j :: 0 <= j < i ==> !DueAt(entries[j], limit)
        invariant best >= 0 ==> DueAt(entries[best], limit)
        invariant best >= 0 ==>
                    forall j :: 0 <= j < i && DueAt(entries[j], limit) ==>
                          j == best || !Better(entries[j], entries[best])
      {
        if DueAt(entries[i], limit) && (best < 0 || Better(entries[i], entries[best])) {
          best := i;
        }
      }
    }

    /** Removes a due frame within the lead and reports its instant, or changes nothing:
        the first-pushed frame of the best priority, while numbers compare as push order. */
    method PopDue(nowUs: int, leadUs: int) returns (slot: u8, earliestOut: int, ghost k: int)
      requires Valid()
      modifies this, entries
      ensures Valid() && nextSeq == old(nextSeq)
      ensures !AnyDue(old(Contents()), nowUs + leadUs) ==>
                slot == INVALID_SLOT && earliestOut == 0 && Contents() == old(Contents())
      ensures AnyDue(old(Contents()), nowUs + leadUs) ==>
                && 0 <= k < |old(Contents())| && old(Contents())[k].earliestUs <= nowUs + leadUs
                && slot == old(Contents())[k].slot && earliestOut == old(Contents())[k].earliestUs
                && Contents() == Without(old(Contents()), k)
      ensures AnyDue(old(Contents()), nowUs + leadUs) && old(Sorted()) ==> IsBest(old(Contents()), nowUs + leadUs, k)
      ensures (old(Sorted()) ==> Sorted()) && (old(Ahead()) ==> Ahead())
    {
      var best := FindBest(nowUs + leadUs);
      k := -1;
      if best < 0 {
        return INVALID_SLOT, 0, k;
      }
      assert entries[..][best].used;
      k :| 0 <= k < |order| && order[k] == best;
      if Sorted() {
        BestPlaceIsBest(entries[..], order, nowUs + leadUs, k);
      }
      PopKeeps(entries[..], order, k);
      slot, earliestOut := entries[best].item.slot, entries[best].item.earliestUs;
      Place(best, EMPTY);
      count := count - 1;
      order := Left(order, k);
    }

    /** Exactly the first instant, from now on, at which a pop would succeed; INT64_MAX for
        an empty queue, and for one that waits until then. */
    method NextEligibleUs(nowUs: int) returns (t: int)
      requires Valid() && forall k :: 0 <= k < |Contents()| ==> Contents()[k].earliestUs <= I64_MAX
      ensures Contents() == [] ==> t == I64_MAX
      ensures Contents() != [] ==> forall u :: u >= nowUs ==> (AnyDue(Contents(), u) <==> u >= t)
      ensures Contents() != [] && nowUs <= I64_MAX ==> nowUs <= t <= I64_MAX
    {
      t := I64_MAX;
      for i := 0 to MAX_ENTRIES
        invariant forall j :: 0 <= j < i && entries[j].used ==>
                    nowUs < entries[j].item.earliestUs && t <= entries[j].item.earliestUs
        invariant t < I64_MAX ==> exists j :: 0 <= j < i && entries[j].used && entries[j].item.earliestUs == t
        invariant t <= I64_MAX
      {
        if entries[i].used {
          ghost var k := PlaceInOrder(entries[..], order, i);
          assert Contents()[k].earliestUs == entries[i].item.earliestUs;
          if entries[i].item.earliestUs <= nowUs {
            assert Contents()[k].earliestUs <= nowUs;
            return nowUs;
          }
          if entries[i].item.earliestUs < t {
            t := entries[i].item.earliestUs;
          }
        }
      }
      SoonestIsExact(nowUs, t);
    }

    lemma SoonestIsExact(nowUs: int, t: int)
      requires Valid() && t <= I64_MAX && forall k :: 0 <= k < |Contents()| ==> Contents()[k].earliestUs <= I64_MAX
      requires forall j :: 0 <= j < MAX_ENTRIES && entries[j].used ==>
                 nowUs < entries[j].item.earliestUs && t <= entries[j].item.earliestUs
      requires t < I64_MAX ==> exists j :: 0 <= j < MAX_ENTRIES && entries[j].used && entries[j].item.earliestUs == t
      ensures Contents() == [] ==> t == I64_MAX
      ensures Contents() != [] ==> forall u :: AnyDue(Contents(), u) <==> u >= t
      ensures Contents() != [] && nowUs <= I64_MAX ==> nowUs <= t
    {
      assert forall m :: 0 <= m < |order| ==> Contents()[m] == entries[order[m]].item && entries[order[m]].used;
      assert forall j :: 0 <= j < MAX_ENTRIES && entries[j].used ==> entries[..][j].used && j in order;
      if order != [] {
        ghost var j := order[0];
        if t < I64_MAX {
          j :| 0 <= j < MAX_ENTRIES && entries[j].used && entries[j].item.earliestUs == t;
        }
        ghost var k := PlaceInOrder(entries[..], order, j);
        assert Contents()[k].earliestUs == t;
      }
    }
  }

  lemma PlaceInOrder(es: seq<Entry>, order: seq<int>, i: nat) returns (k: nat)
    requires Represents(es, order) && i < |es| && es[i].used
    ensures k < |order| && order[k] == i && ItemsAt(es, order)[k] == es[i].item
  {
    k :| 0 <= k < |order| && order[k] == i;
  }

  /** No due place is better than this one. */
  ghost predicate BestPlace(es: seq<Entry>, limit: int, best: nat) {
    best < |es| && DueAt(es[best], limit)
    && forall j :: 0 <= j < |es| && DueAt(es[j], limit) ==> j == best || !Better(es[j], es[best])
  }

  predicate DueAt(e: Entry, limit: int) {
    e.used && e.item.earliestUs <= limit
  }

  predicate Better(a: Entry, b: Entry) {
    if a.item.priority != b.item.priority then Rank(a.item.priority) < Rank(b.item.priority) else a.number < b.number
  }

  function ItemsAt(entries: seq<Entry>, order: seq<int>): (items: seq<Item>)
    requires forall k :: 0 <= k < |order| ==> 0 <= order[k] < |entries|
    ensures |items| == |order| && forall k :: 0 <= k < |order| ==> items[k] == entries[order[k]].item
  {
    seq(|order|, k requires 0 <= k < |order| => entries[order[k]].item)
  }

  lemma LeftMembers(order: seq<int>, k: nat)
    requires k < |order| && Distinct(order)
    ensures forall x :: x in Left(order, k) <==> x in order && x != order[k]
    ensures Distinct(Left(order, k))
  {
    var left := Left(order, k);
    forall x | x in order && x != order[k]
      ensures x in left
    {
      var i :| 0 <= i < |order| && order[i] == x;
      assert left[if i < k then i else i - 1] == x;
    }
  }

  lemma BestPlaceIsBest(es: seq<Entry>, order: seq<int>, limit: int, k: nat)
    requires Represents(es, order) && Numbered(es, order) && k < |order| && BestPlace(es, limit, order[k])
    ensures IsBest(ItemsAt(es, order), limit, k)
  {
    var items := ItemsAt(es, order);
    forall j | 0 <= j < |items| && items[j].earliestUs <= limit
      ensures Rank(items[k].priority) < Rank(items[j].priority) || (items[k].priority == items[j].priority && k <= j)
    {
      assert DueAt(es[order[j]], limit);
    }
  }

  /** Where a wrapped number shows: of two due frames of one priority with numbers 2^32 - 1
      and 0, the one pushed second is the best place, and the list is not numbered. */
  lemma WrappedNumberJumpsTheQueue(es: seq<Entry>, order: seq<int>, limit: int)
    requires Represents(es, order) && |order| == 2 && DueAt(es[order[0]], limit) && DueAt(es[order[1]], limit)
    requires es[order[0]].item.priority == es[order[1]].item.priority
    requires es[order[0]].number == U32_MOD - 1 && es[order[1]].number == 0
    ensures BestPlace(es, limit, order[1]) && !IsBest(ItemsAt(es, order), limit, 1) && !Numbered(es, order)
  {
    forall j | 0 <= j < |es| && DueAt(es[j], limit)
      ensures j == order[1] || !Better(es[j], es[order[1]])
    {
      assert j in order;
    }
  }

  // ---- counting places ------------------------------------------------------

  function Places(n: nat): (s: set<int>)
    ensures forall i :: i in s <==> 0 <= i < n
  {
    if n == 0 then {} else Places(n - 1) + {n - 1}
  }

  lemma {:induction false} PlacesCount(n: nat)
    ensures |Places(n)| == n
  {
    if n > 0 {
      PlacesCount(n - 1);
    }
  }

  function Members(order: seq<int>): set<int> {
    set x | x in order
  }

  lemma {:induction false} DistinctCount(order: seq<int>)
    requires Distinct(order)
    ensures |Members(order)| == |order|
  {
    if order != [] {
      var rest := order[1..];
      DistinctCount(rest);
      assert order == [order[0]] + rest;
      assert Members(order) == Members(rest) + {order[0]};
    }
  }

  lemma {:induction false} SubsetCount(a: set<int>, b: set<int>)
    requires a <= b
    ensures |a| <= |b| && (|a| == |b| ==> a == b)
  {
    assert b == a + (b - a);
    assert |b| == |a| + |b - a|;
  }

  lemma AtMostPlaces(order: seq<int>, n: nat)
    requires Distinct(order) && forall k :: 0 <= k < |order| ==> 0 <= order[k] < n
    ensures |order| <= n
  {
    DistinctCount(order);
    PlacesCount(n);
    SubsetCount(Members(order), Places(n));
  }

  lemma AllPlacesUsed(order: seq<int>, n: nat)
    requires Distinct(order) && forall i :: 0 <= i < n ==> i in order
    ensures |order| >= n
  {
    DistinctCount(order);
    PlacesCount(n);
    SubsetCount(Places(n), Members(order));
  }

  lemma FreePlaceLeft(order: seq<int>, free: int, n: nat)
    requires Distinct(order) && (forall k :: 0 <= k < |order| ==> 0 <= order[k] < n) && 0 <= free < n && free !in order
    ensures |order| < n
  {
    DistinctCount(order);
    PlacesCount(n);
    SubsetCount(Members(order), Places(n));
    assert free in Places(n) && free !in Members(order);
  }

  // ---- what popping until nothing is due gives ------------------------------

  /** Index of the frame a pop takes when all are due, or |items|. */
  function BestOf(items: seq<Item>): (k: nat)
    ensures items == [] ==> k == 0
    ensures items != [] ==> k < |items|
    ensures items != [] ==> forall j :: 0 <= j < |items| ==>
              Rank(items[k].priority) < Rank(items[j].priority) || (items[k].priority == items[j].priority && k <= j)
  {
    if |items| <= 1 then 0
    else
      var k := BestOf(items[..|items| - 1]);
      if Rank(items[|items| - 1].priority) < Rank(items[k].priority) then |items| - 1 else k
  }

  /** The frames in the order successive pops release them. */
  function Drain(items: seq<Item>): seq<Item>
    decreases |items|
  {
    if items == [] then [] else [items[BestOf(items)]] + Drain(Without(items, BestOf(items)))
  }

  function OfPriority(items: seq<Item>, p: Priority): seq<Item> {
    if items == [] then []
    else (if items[0].priority == p then [items[0]] else []) + OfPriority(items[1..], p)
  }

  lemma {:induction false} OfPriorityConcat(a: seq<Item>, b: seq<Item>, p: Priority)
    ensures OfPriority(a + b, p) == OfPriority(a, p) + OfPriority(b, p)
    decreases |a|
  {
    if a == [] {
      assert a + b == b;
    } else {
      var head := if a[0].priority == p then [a[0]] else [];
      OfPriorityConcat(a[1..], b, p);
      assert (a + b)[0] == a[0] && (a + b)[1..] == a[1..] + b;
      assert OfPriority(a + b, p) == head + OfPriority(a[1..] + b, p);
    }
  }

  lemma {:induction false} NoneOfPriority(items: seq<Item>, p: Priority)
    requires forall j :: 0 <= j < |items| ==> items[j].priority != p
    ensures OfPriority(items, p) == []
  {
    if items != [] {
      NoneOfPriority(items[1..], p);
    }
  }

  lemma SplitAt(items: seq<Item>, k: nat, p: Priority)
    requires k < |items|
    ensures OfPriority(items, p)
         == OfPriority(items[..k], p) + (if items[k].priority == p then [items[k]] else [])
             + OfPriority(items[k + 1..], p)
    ensures OfPriority(Without(items, k), p) == OfPriority(items[..k], p) + OfPriority(items[k + 1..], p)
  {
    OfPriorityConcat(items[..k], items[k..], p);
    assert items[..k] + items[k..] == items && items[k..][1..] == items[k + 1..];
    OfPriorityConcat(items[..k], items[k + 1..], p);
  }

  lemma HeadOfItsList(items: seq<Item>, k: nat)
    requires k < |items| && forall j :: 0 <= j < k ==> items[j].priority != items[k].priority
    ensures OfPriority(items, items[k].priority) == [items[k]] + OfPriority(Without(items, k), items[k].priority)
  {
    var p := items[k].priority;
    SplitAt(items, k, p);
    NoneOfPriority(items[..k], p);
    Prefixed(OfPriority(items[..k], p), items[k], OfPriority(items[k + 1..], p));
  }

  lemma Prefixed(none: seq<Item>, x: Item, rest: seq<Item>)
    requires none == []
    ensures none + [x] + rest == [x] + (none + rest)
  {
  }

  /** Removing the frame a pop takes: it is the head of its priority's list, every
      better list is empty, and the other lists do not change. */
  lemma PopTakesAHead(items: seq<Item>)
    requires items != []
    ensures var k := BestOf(items);
            var t := items[k];
            && OfPriority(items, t.priority) == [t] + OfPriority(Without(items, k), t.priority)
            && (forall p :: p != t.priority ==> OfPriority(Without(items, k), p) == OfPriority(items, p))
            && (forall p :: Rank(p) < Rank(t.priority) ==> OfPriority(items, p) == [])
  {
    var k := BestOf(items);
    var t := items[k];
    HeadOfItsList(items, k);
    forall p | p != t.priority
      ensures OfPriority(Without(items, k), p) == OfPriority(items, p)
    {
      SplitAt(items, k, p);
    }
    forall p | Rank(p) < Rank(t.priority)
      ensures OfPriority(items, p) == []
    {
      NoneOfPriority(items, p);
    }
  }

  /** Draining a due queue is a stable sort: all Immediate frames in push order, then
      the Normal ones, then the Background ones; nothing is lost or doubled. */
  lemma {:induction false} DrainIsStableSort(items: seq<Item>)
    ensures Drain(items) == OfPriority(items, Immediate) + OfPriority(items, Normal) + OfPriority(items, Background)
    decreases |items|
  {
    if items != [] {
      var k := BestOf(items);
      var rest := Without(items, k);
      PopTakesAHead(items);
      DrainIsStableSort(rest);
      var a, n, b := OfPriority(rest, Immediate), OfPriority(rest, Normal), OfPriority(rest, Background);
      SortedPop(items[k], a, n, b, OfPriority(items, Immediate), OfPriority(items, Normal),
          OfPriority(items, Background));
    }
  }

  lemma SortedPop(x: Item, a: seq<Item>, n: seq<Item>, b: seq<Item>, a': seq<Item>, n': seq<Item>, b': seq<Item>)
    requires x.priority.Immediate? ==> a' == [x] + a && n' == n && b' == b
    requires x.priority.Normal? ==> a' == a == [] && n' == [x] + n && b' == b
    requires x.priority.Background? ==> a' == a == [] && n' == n == [] && b' == [x] + b
    ensures [x] + (a + n + b) == a' + n' + b'
  {
  }

  /** BestOf is the frame PopDue takes when everything is due. */
  lemma DrainFollowsPops(items: seq<Item>, limit: int, k: int)
    requires IsBest(items, limit, k) && forall j :: 0 <= j < |items| ==> items[j].earliestUs <= limit
    ensures k == BestOf(items) && Drain(items) == [items[k]] + Drain(Without(items, k))
  {
  }
}
