/**
 Blocks of downlink counters reserved on the loop task and spent from the timer
 task (FcntReservation.h, and the reservation code of lora_client_bench.cpp).
 */
module FcntBlocks {
  import opened Machine
  import Seq = Sequencer

  const CTR_LIMIT: int := 0x8000_0000

  datatype Block = Block(valid: bool, next: u32, last: u32, epoch: u32)

  const NO_BLOCK := Block(false, 0, 0, 0)

  function Grant(first: u32, last: u32, epoch: u32): Block {
    if first != 0 && first <= last then Block(true, first, last, epoch) else Block(false, 0, 0, epoch)
  }

  function Invalidate(b: Block): Block {
    Block(false, 0, 0, b.epoch)
  }

  /** The next counter of the block, or 0, and the block left behind. */
  function Take(b: Block, epochNow: u32): (Block, u32) {
    if !b.valid then (b, 0)
    else if epochNow != b.epoch then (Invalidate(b), 0)
    else if b.next == b.last then (Invalidate(b), b.next)
    else (b.(next := Wrap32(b.next + 1)), b.next)
  }

  /** The counters a block still holds. */
  predicate InBlock(b: Block, c: int) {
    b.valid && b.next <= c <= b.last
  }

  ghost predicate WellFormed(b: Block) {
    b.valid ==> 0 < b.next <= b.last < CTR_LIMIT
  }

  function TakeAll(b: Block, epoch: u32, n: nat): (r: (Block, seq<u32>))
    ensures |r.1| == n
  {
    if n == 0 then (b, [])
    else
      var (b', taken) := TakeAll(b, epoch, n - 1);
      var (b'', c) := Take(b', epoch);
      (b'', taken + [c])
  }

  /** A granted block hands out first, first + 1, ..., last, each once, and then
      nothing but 0. */
  lemma {:induction false} BlockIsSpentInOrder(first: u32, last: u32, epoch: u32, n: nat)
    requires 0 < first <= last < CTR_LIMIT
    ensures var (b, taken) := TakeAll(Grant(first, last, epoch), epoch, n);
            && (forall k :: 0 <= k < n ==> taken[k] == (if first + k <= last then first + k else 0))
            && b == (if first + n <= last then Block(true, first + n, last, epoch) else Block(false, 0, 0, epoch))
  {
    if n > 0 {
      BlockIsSpentInOrder(first, last, epoch, n - 1);
    }
  }

  /** An empty range, or one from 0, hands out nothing at all. */
  lemma {:induction false} EmptyRangeGivesNothing(first: u32, last: u32, granted: u32, epoch: u32, n: nat)
    requires first == 0 || first > last
    ensures var (b, taken) := TakeAll(Grant(first, last, granted), epoch, n);
            !b.valid && forall k :: 0 <= k < n ==> taken[k] == 0
  {
    if n > 0 {
      EmptyRangeGivesNothing(first, last, granted, epoch, n - 1);
    }
  }

  /** A block whose epoch has passed is dead for good: not even a return of the
      epoch revives it. */
  lemma {:induction false} MovedEpochKills(b: Block, moved: u32, epoch: u32, n: nat)
    requires moved != b.epoch
    ensures Take(b, moved).1 == 0
    ensures forall k :: 0 <= k < n ==> TakeAll(Take(b, moved).0, epoch, n).1[k] == 0
    ensures !TakeAll(Take(b, moved).0, epoch, n).0.valid
  {
    if n > 0 {
      MovedEpochKills(b, moved, epoch, n - 1);
    }
  }

  class FcntReservation {
    var valid: bool
    var next: u32
    var last: u32
    var epoch: u32

    ghost function Value(): Block
      reads this
    {
      Block(valid, next, last, epoch)
    }

    constructor ()
      ensures Value() == NO_BLOCK
    {
      valid, next, last, epoch := false, 0, 0, 0;
    }

    method GrantBlock(first: u32, last: u32, keyEpoch: u32)
      modifies this
      ensures Value() == Grant(first, last, keyEpoch)
    {
      valid := first != 0 && first <= last;
      next := if valid then first else 0;
      this.last := if valid then last else 0;
      epoch := keyEpoch;
    }

    method Drop()
      modifies this`valid, this`next, this`last
      ensures Value() == Invalidate(old(Value()))
    {
      valid, next, last := false, 0, 0;
    }

    method TakeNext(keyEpochNow: u32) returns (fcnt: u32)
      modifies this`valid, this`next, this`last
      ensures Value() == Take(old(Value()), keyEpochNow).0 && fcnt == Take(old(Value()), keyEpochNow).1
    {
      if !valid {
        return 0;
      }
      if keyEpochNow != epoch {
        Drop();
        return 0;
      }
      fcnt := next;
      if fcnt == last {
        Drop();
      } else {
        next := Wrap32(next + 1);
      }
    }
  }

  /** The block a reservation of n counters gets when the counter stands at tx. */
  function BlockEnd(first: u32, n: u32): u32
    requires n > 0
  {
    var last := Wrap32(first + (n - 1));
    if last < first || last >= CTR_LIMIT then CTR_LIMIT - 1 else last
  }

  /** A reservation of n counters is n counters, or all that are left below 2^31. */
  lemma BlockEndIs(first: u32, n: u32)
    requires 0 < n && first < CTR_LIMIT
    ensures BlockEnd(first, n) == if first + n <= CTR_LIMIT then first + n - 1 else CTR_LIMIT - 1
  {
  }

  lemma WrapBack(x: u32)
    ensures Wrap32(Wrap32(x - 1) + 1) == x
  {
  }

  lemma AllocationIsNext(s: Seq.State, h: Seq.Hook)
    ensures var (t, a) := Seq.Allocate(s, h);
            && t.rx == s.rx && t.cfg == s.cfg
            && (a.status.Ok? ==> a.fcnt == s.tx + 1 == t.tx < CTR_LIMIT)
            && (!a.status.Ok? ==> a.fcnt == 0 && t.tx == s.tx)
  {
  }

  /** reserve_fcnt_block_: one allocation, whatever its write answers, then the rest of the
      block is skipped. On success the counter stands at the block's end; every id up to it
      is either older or in the block. A refused allocation leaves no block. */
  method ReserveBlock(counters: Seq.Sequencer, r: FcntReservation, n: u32, epoch: u32, h: Seq.Hook) returns (ok: bool)
    requires counters.cfg == Seq.HUB_CONFIG
    modifies counters, r
    ensures ok <==> n > 0 && Seq.Allocate(old(counters.Value()), h).1.status.Ok?
    ensures ok ==> r.Value() == Block(true, old(counters.tx) + 1, BlockEnd(old(counters.tx) + 1, n), epoch)
    ensures ok ==> counters.tx == BlockEnd(old(counters.tx) + 1, n) && counters.rx == old(counters.rx)
    ensures ok ==> old(counters.tx) < counters.tx < CTR_LIMIT && counters.persistedTx == counters.tx
    ensures !ok ==> r.Value() == Invalidate(old(r.Value()))
    ensures !ok && n > 0 ==> counters.Value() == Seq.Allocate(old(counters.Value()), h).0
    ensures !ok ==> counters.tx == old(counters.tx) && counters.rx == old(counters.rx)
  {
    if n == 0 {
      r.Drop();
      return false;
    }
    AllocationIsNext(counters.Value(), h);
    var a := counters.AllocateId(h);
    assert counters.rx == counters.Value().rx == old(counters.rx) && counters.tx == counters.Value().tx;
    if a.fcnt == 0 || a.fcnt >= CTR_LIMIT {
      r.Drop();
      return false;
    }
    var first := a.fcnt;
    var last := Wrap32(first + (n - 1));
    if last < first || last >= CTR_LIMIT {
      last := CTR_LIMIT - 1;
    }
    WrapBack(last);
    WrapBack(counters.rx);
    counters.Install(Seq.Snapshot(Wrap32(last - 1), Wrap32(counters.rx - 1)));
    assert counters.tx == counters.Value().tx == last && counters.rx == counters.Value().rx;
    r.GrantBlock(first, last, epoch);
    return true;
  }
}
