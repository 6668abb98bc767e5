/**
 The hub's delivery decisions (DeliveryPolicy.h): the timeout ladder, the bounded
 set of ack ids and the one-at-a-time control queue.
 */
module DeliveryPolicy {
  import opened Machine

  datatype TimeoutAction = Stale | DeferRelogin | ShortWaitMissed | GiveUp | Retransmit
  datatype TimeoutState = TimeoutState(awaiting: bool, reloginPending: bool, shortWait: bool, spent: u8, maxRetries: u8)
  datatype TimeoutDecision = TimeoutDecision(action: TimeoutAction, spent: u8)

  const CONTROL_MAX_RETRIES: u8 := 4

  function OnAckTimeout(s: TimeoutState): TimeoutDecision {
    if !s.awaiting then TimeoutDecision(Stale, s.spent)
    else if s.reloginPending then TimeoutDecision(DeferRelogin, s.spent)
    else if s.shortWait then TimeoutDecision(ShortWaitMissed, s.spent)
    else
      var spent: u8 := (s.spent + 1) % 256;
      TimeoutDecision(if spent > s.maxRetries then GiveUp else Retransmit, spent)
  }

  /** What one expiry of the ack timer found. */
  datatype Expiry = Expiry(reloginPending: bool, shortWait: bool)

  /** The actions of one command's ladder, until it gives up. */
  function Ladder(maxRetries: u8, spent: u8, expiries: seq<Expiry>): (actions: seq<TimeoutAction>)
    ensures |actions| <= |expiries|
    decreases |expiries|
  {
    if expiries == [] then []
    else
      var d := OnAckTimeout(TimeoutState(true, expiries[0].reloginPending, expiries[0].shortWait, spent, maxRetries));
      if d.action.GiveUp? then [GiveUp] else [d.action] + Ladder(maxRetries, d.spent, expiries[1..])
  }

  function Count(actions: seq<TimeoutAction>, a: TimeoutAction): nat {
    if actions == [] then 0 else (if actions[0] == a then 1 else 0) + Count(actions[1..], a)
  }

  /** Expiries that are neither deferred nor the short first wait. */
  function Charged(expiries: seq<Expiry>): nat
    decreases |expiries|
  {
    if expiries == [] then 0
    else (if !expiries[0].reloginPending && !expiries[0].shortWait then 1 else 0) + Charged(expiries[1..])
  }

  /** Expiries found while a login is pending. */
  function Deferred(expiries: seq<Expiry>): nat
    decreases |expiries|
  {
    if expiries == [] then 0 else (if expiries[0].reloginPending then 1 else 0) + Deferred(expiries[1..])
  }

  /** A timer that outlived its command does nothing; of the others exactly the counted ones
      cost a retry. */
  lemma OnlyCountedOnesCost(s: TimeoutState)
    ensures var d := OnAckTimeout(s);
            && (d.action.Stale? <==> !s.awaiting)
            && (d.spent != s.spent <==> d.action.Retransmit? || d.action.GiveUp?)
  {
  }

  /** Expiries that are not charged: one is deferred whenever a login is pending, a short
      wait or not, and else a short wait missed. */
  lemma {:induction false} FreeExpiriesAreToldApart(maxRetries: u8, spent: u8, expiries: seq<Expiry>)
    requires forall e <- expiries :: e.reloginPending || e.shortWait
    ensures var a := Ladder(maxRetries, spent, expiries);
            && |a| == |expiries| && Count(a, DeferRelogin) == Deferred(expiries)
            && Count(a, ShortWaitMissed) == |expiries| - Deferred(expiries)
    decreases |expiries|
  {
    if expiries != [] {
      var e := expiries[0];
      assert e in expiries && forall x <- expiries[1..] :: x in expiries;
      FreeExpiriesAreToldApart(maxRetries, spent, expiries[1..]);
      assert Ladder(maxRetries, spent, expiries)[1..] == Ladder(maxRetries, spent, expiries[1..]);
    }
  }

  /** The counted budget: exactly maxRetries retransmissions, then one give-up, and
      only charged expiries count. */
  lemma {:induction false} LadderBudget(maxRetries: u8, spent: u8, expiries: seq<Expiry>)
    requires spent <= maxRetries < 255
    ensures var a := Ladder(maxRetries, spent, expiries);
            && Count(a, Retransmit)
               == (if Charged(expiries) <= maxRetries - spent then Charged(expiries) else maxRetries - spent)
            && Count(a, GiveUp) == (if Charged(expiries) > maxRetries - spent then 1 else 0)
    decreases |expiries|
  {
    if expiries != [] {
      var e := expiries[0];
      if e.reloginPending || e.shortWait || spent < maxRetries {
        var d := OnAckTimeout(TimeoutState(true, e.reloginPending, e.shortWait, spent, maxRetries));
        LadderBudget(maxRetries, d.spent, expiries[1..]);
        assert Ladder(maxRetries, spent, expiries)[1..] == Ladder(maxRetries, d.spent, expiries[1..]);
      } else {
        assert [GiveUp][1..] == [];
        ChargedSuffix(expiries);
      }
    }
  }

  lemma ChargedSuffix(expiries: seq<Expiry>)
    requires expiries != [] && !expiries[0].reloginPending && !expiries[0].shortWait
    ensures Charged(expiries) > 0
  {
  }

  function Silences(n: nat): seq<Expiry> {
    seq(n, _ => Expiry(false, false))
  }

  lemma {:induction false} FullBudgetNeverGivesUp(spent: u8, n: nat)
    ensures Count(Ladder(255, spent, Silences(n)), GiveUp) == 0
    decreases n
  {
    if n > 0 {
      var d := OnAckTimeout(TimeoutState(true, false, false, spent, 255));
      assert Silences(n)[1..] == Silences(n - 1);
      FullBudgetNeverGivesUp(d.spent, n - 1);
      assert Ladder(255, spent, Silences(n))[1..] == Ladder(255, d.spent, Silences(n - 1));
    }
  }

  /** An unanswered command is given up after enough silence exactly when its
      budget is below 255: at 255 the 8-bit counter wraps before it exceeds it. */
  lemma GivesUpIff(maxRetries: u8)
    ensures maxRetries < 255 <==> exists n :: Count(Ladder(maxRetries, 0, Silences(n)), GiveUp) == 1
  {
    if maxRetries < 255 {
      ChargedSilences(maxRetries + 1);
      LadderBudget(maxRetries, 0, Silences(maxRetries + 1));
    } else {
      forall n: nat
        ensures Count(Ladder(maxRetries, 0, Silences(n)), GiveUp) == 0
      {
        FullBudgetNeverGivesUp(0, n);
      }
    }
  }

  lemma {:induction false} ChargedSilences(n: nat)
    ensures Charged(Silences(n)) == n
  {
    if n > 0 {
      assert Silences(n)[1..] == Silences(n - 1);
      ChargedSilences(n - 1);
    }
  }

  // ---- the ids a request has been sent under --------------------------------

  const ACK_IDS_CAP: nat := 8

  datatype Sent = Sent(id: u32, tag: u32)

  function AddId(ids: seq<Sent>, id: u32, tag: u32): seq<Sent> {
    if id == 0 then ids
    else (if |ids| == ACK_IDS_CAP then ids[1..] else ids) + [Sent(id, tag)]
  }

  class AckIds {
    const slots: array<Sent>
    var n: nat

    ghost predicate Valid()
      reads this, slots
    {
      slots.Length == ACK_IDS_CAP && n <= ACK_IDS_CAP
    }

    ghost function Contents(): seq<Sent>
      requires Valid()
      reads this, slots
    {
      slots[..n]
    }

    constructor ()
      ensures Valid() && fresh(slots) && Contents() == []
    {
      slots := new Sent[ACK_IDS_CAP](_ => Sent(0, 0));
      n := 0;
    }

    method Add(id: u32, tag: u32)
      requires Valid()
      modifies this, slots
      ensures Valid() && Contents() == AddId(old(Contents()), id, tag)
    {
      if id == 0 {
        return;
      }
      if n == ACK_IDS_CAP {
        for i := 1 to ACK_IDS_CAP
          invariant n == ACK_IDS_CAP
          invariant forall k :: 0 <= k < i - 1 ==> slots[k] == old(slots[k + 1])
          invariant forall k :: i - 1 <= k < ACK_IDS_CAP ==> slots[k] == old(slots[k])
        {
          slots[i - 1] := slots[i];
        }
        n := n - 1;
      }
      slots[n] := Sent(id, tag);
      n := n + 1;
    }

    /** The position of an acked id, or -1: an ack completes the request exactly
        when it names one of the remembered ids. */
    method FindId(wanted: u32) returns (r: int)
      requires Valid()
      ensures -1 <= r < |Contents()|
      ensures r >= 0 ==> Contents()[r].id == wanted && forall k :: 0 <= k < r ==> Contents()[k].id != wanted
      ensures r == -1 ==> forall k :: 0 <= k < |Contents()| ==> Contents()[k].id != wanted
    {
      for i := 0 to n
        invariant forall k :: 0 <= k < i ==> slots[k].id != wanted
      {
        if slots[i].id == wanted {
          return i;
        }
      }
      return -1;
    }
  }

  function AddAll(ids: seq<Sent>, more: seq<Sent>): seq<Sent>
    decreases |more|
  {
    if more == [] then ids else AddAll(AddId(ids, more[0].id, more[0].tag), more[1..])
  }

  function LastEight(ids: seq<Sent>): seq<Sent> {
    if |ids| <= ACK_IDS_CAP then ids else ids[|ids| - ACK_IDS_CAP..]
  }

  /** Attempts that were given an id; 0 is none. */
  function Real(more: seq<Sent>): seq<Sent>
    decreases |more|
  {
    if more == [] then [] else if more[0].id == 0 then Real(more[1..]) else [more[0]] + Real(more[1..])
  }

  /** Whatever was sent before, the set holds the last eight attempts, each with
      its own tag: a late ack for a remembered attempt finds what it carried. */
  lemma {:induction false} HoldsLastEight(ids: seq<Sent>, more: seq<Sent>)
    requires |ids| <= ACK_IDS_CAP
    ensures AddAll(ids, more) == LastEight(ids + Real(more))
    decreases |more|
  {
    if more == [] {
      assert ids + Real(more) == ids;
    } else if more[0].id == 0 {
      HoldsLastEight(ids, more[1..]);
    } else {
      HoldsLastEight(AddId(ids, more[0].id, more[0].tag), more[1..]);
      OneMoreSent(ids, more[0], Real(more[1..]));
    }
  }

  lemma OneMoreSent(ids: seq<Sent>, x: Sent, rest: seq<Sent>)
    requires |ids| <= ACK_IDS_CAP && x.id != 0
    ensures LastEight(AddId(ids, x.id, x.tag) + rest) == LastEight(ids + ([x] + rest))
  {
    var next, all := AddId(ids, x.id, x.tag), ids + ([x] + rest);
    if |ids| == ACK_IDS_CAP {
      assert next + rest == all[1..];
      LastEightOfTail(all);
    } else {
      assert next + rest == all;
    }
  }

  lemma LastEightOfTail(all: seq<Sent>)
    requires |all| > ACK_IDS_CAP
    ensures LastEight(all[1..]) == LastEight(all)
  {
    assert all[1..][|all| - 1 - ACK_IDS_CAP..] == all[|all| - ACK_IDS_CAP..];
  }

  // ---- one control command in flight, the rest in line ----------------------

  const QUEUE_DEPTH: nat := 4

  datatype ControlCmd = Cover(operation: int) | Sysop(sysop: int)
  datatype Push = Queued | ReplacedCover | Full

  /** Lowest index of a waiting cover operation, or |q|. */
  function CoverFrom(q: seq<ControlCmd>, i: nat): (r: nat)
    requires i <= |q|
    ensures i <= r <= |q|
    ensures r < |q| ==> q[r].Cover?
    ensures forall k :: i <= k < r ==> q[k].Sysop?
    decreases |q| - i
  {
    if i == |q| || q[i].Cover? then i else CoverFrom(q, i + 1)
  }

  function WithoutCover(q: seq<ControlCmd>): seq<ControlCmd> {
    var i := CoverFrom(q, 0);
    if i == |q| then q else q[..i] + q[i + 1..]
  }

  function Pushed(q: seq<ControlCmd>, c: ControlCmd): (seq<ControlCmd>, Push) {
    var kept := if c.Cover? then WithoutCover(q) else q;
    if |kept| >= QUEUE_DEPTH then (kept, Full)
    else (kept + [c], if |kept| < |q| then ReplacedCover else Queued)
  }

  class ControlQueue {
    const q: array<ControlCmd>
    var n: nat

    ghost predicate Valid()
      reads this, q
    {
      q.Length == QUEUE_DEPTH && n <= QUEUE_DEPTH
    }

    ghost function Contents(): seq<ControlCmd>
      requires Valid()
      reads this, q
    {
      q[..n]
    }

    constructor ()
      ensures Valid() && fresh(q) && Contents() == []
    {
      q := new ControlCmd[QUEUE_DEPTH](_ => Sysop(0));
      n := 0;
    }

    method Erase(at: nat)
      requires Valid() && at < n
      modifies this, q
      ensures Valid() && Contents() == old(Contents())[..at] + old(Contents())[at + 1..]
    {
      ghost var was := q[..n];
      var i := at;
      while i + 1 < n
        invariant at <= i < n == |was| <= q.Length
        invariant q[..i] == was[..at] + was[at + 1..i + 1]
        invariant forall k :: i < k < n ==> q[k] == was[k]
      {
        q[i] := q[i + 1];
        Closed(was, at, i);
        i := i + 1;
      }
      assert was[at + 1..] == was[at + 1..i + 1];
      n := n - 1;
    }

    method PushCmd(c: ControlCmd) returns (r: Push)
      requires Valid()
      modifies this, q
      ensures Valid() && Contents() == Pushed(old(Contents()), c).0 && r == Pushed(old(Contents()), c).1
    {
      var replaced := false;
      if c.Cover? {
        var i := 0;
        while i < n && q[i].Sysop?
          invariant i <= n && CoverFrom(Contents(), 0) == CoverFrom(Contents(), i)
          invariant n == old(n) && q[..] == old(q[..])
        {
          i := i + 1;
        }
        if i < n {
          Erase(i);
          replaced := true;
        }
        assert Contents() == WithoutCover(old(Contents()));
      }
      ghost var kept := Contents();
      if n == QUEUE_DEPTH {
        return Full;
      }
      q[n] := c;
      n := n + 1;
      assert Contents() == kept + [c];
      r := if replaced then ReplacedCover else Queued;
    }

    method Pop() returns (r: Option<ControlCmd>)
      requires Valid()
      modifies this, q
      ensures Valid()
      ensures old(Contents()) == [] ==> r == None && Contents() == []
      ensures old(Contents()) != [] ==> r == Some(old(Contents())[0]) && Contents() == old(Contents())[1..]
    {
      if n == 0 {
        return None;
      }
      r := Some(q[0]);
      Erase(0);
    }
  }

  /** One more element moved down over the gap at `at`. */
  lemma Closed(was: seq<ControlCmd>, at: nat, i: nat)
    requires at <= i < |was| - 1
    ensures (was[..at] + was[at + 1..i + 1]) + [was[i + 1]] == was[..at] + was[at + 1..i + 2]
  {
    assert was[at + 1..i + 2] == was[at + 1..i + 1] + [was[i + 1]];
  }

  function Sysops(q: seq<ControlCmd>): seq<ControlCmd> {
    if q == [] then [] else (if q[0].Sysop? then [q[0]] else []) + Sysops(q[1..])
  }

  ghost predicate OneCover(q: seq<ControlCmd>) {
    forall i, j :: 0 <= i < j < |q| ==> !(q[i].Cover? && q[j].Cover?)
  }

  lemma {:induction false} SysopsConcat(a: seq<ControlCmd>, b: seq<ControlCmd>)
    ensures Sysops(a + b) == Sysops(a) + Sysops(b)
    decreases |a|
  {
    if a == [] {
      assert a + b == b;
    } else {
      assert (a + b)[0] == a[0] && (a + b)[1..] == a[1..] + b;
      SysopsConcat(a[1..], b);
      var head := if a[0].Sysop? then [a[0]] else [];
      assert head + (Sysops(a[1..]) + Sysops(b)) == (head + Sysops(a[1..])) + Sysops(b);
    }
  }

  lemma WithoutCoverKeepsSysops(q: seq<ControlCmd>)
    ensures Sysops(WithoutCover(q)) == Sysops(q)
  {
    var i := CoverFrom(q, 0);
    if i < |q| {
      SysopsConcat(q[..i], q[i + 1..]);
      SysopsConcat(q[..i], q[i..]);
      assert q[..i] + q[i..] == q;
      assert q[i..][1..] == q[i + 1..];
    }
  }

  lemma WithoutCoverHasNone(q: seq<ControlCmd>)
    requires OneCover(q)
    ensures forall k :: 0 <= k < |WithoutCover(q)| ==> WithoutCover(q)[k].Sysop?
  {
    var i := CoverFrom(q, 0);
    var t := WithoutCover(q);
    forall k | 0 <= k < |t|
      ensures t[k].Sysop?
    {
      if i < |q| && k >= i {
        assert t[k] == q[k + 1];
      }
    }
  }

  /** No system operation is ever dropped, replaced or overtaken by another. */
  lemma PushKeepsSysops(q: seq<ControlCmd>, c: ControlCmd)
    ensures var (t, r) := Pushed(q, c);
            Sysops(t) == Sysops(q) + (if c.Sysop? && !r.Full? then [c] else [])
  {
    WithoutCoverKeepsSysops(q);
    SysopsConcat(if c.Cover? then WithoutCover(q) else q, [c]);
    assert [c][1..] == [];
  }

  /** At most one cover operation waits, and a push that is not refused puts its
      command last. A refusal changes nothing, and happens exactly when the queue
      is full with nothing the command may replace. */
  lemma PushKeepsOneCover(q: seq<ControlCmd>, c: ControlCmd)
    requires OneCover(q) && |q| <= QUEUE_DEPTH
    ensures var (t, r) := Pushed(q, c);
            && OneCover(t) && |t| <= QUEUE_DEPTH
            && (r.Full? <==> |q| == QUEUE_DEPTH && (c.Sysop? || CoverFrom(q, 0) == |q|))
            && (r.Full? ==> t == q)
            && (!r.Full? ==> |t| > 0 && t[|t| - 1] == c)
            && (r.ReplacedCover? <==> c.Cover? && CoverFrom(q, 0) < |q|)
  {
    WithoutCoverHasNone(q);
  }
}
