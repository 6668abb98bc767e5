/**
 One warm-up on the air at a time (ModeBSupervisor.h): the hub-wide token and the
 per-node policy that asks for it.
 */
module ModeBSupervisor {
  import opened Machine

  const TICK_S: int := 2
  const GRID_SETTLE_S: int := 75
  const WARMUP_S: int := 60
  const VERIFY_GRACE_S: int := 90
  const YIELD_RETRY_S: int := 30
  const JITTER_MAX_S: int := 20
  const REARM_HOLD_S: int := 300
  const LEASE_S: int := 90
  const QUEUE_CAP: nat := 64
  const NOT_ACKED: int := 0xFFFF_FFFF

  function BackoffS(failures: int): int {
    if failures == 0 then 0
    else if failures == 1 then 120
    else if failures == 2 then 300
    else if failures == 3 then 900
    else 3600
  }

  /** `(int32_t) (now - t) >= 0`. */
  predicate Reached(now: u32, t: u32) {
    Wrap32(now - t) < 0x8000_0000
  }

  /** The wrapped comparison is the true one while the two instants are closer
      than 2^31 seconds. */
  lemma ReachedIsOrder(now: int, t: int)
    requires -0x8000_0000 <= now - t < 0x8000_0000
    ensures Reached(Wrap32(now), Wrap32(t)) <==> now >= t
  {
    var d := now - t;
    assert Wrap32(Wrap32(now) - Wrap32(t)) == Wrap32(d);
    assert Wrap32(d) == if d >= 0 then d else d + U32_MOD;
  }

  // ---- the token ------------------------------------------------------------

  datatype Token = Token(queue: seq<u32>, has: bool, holder: u32, leaseEnd: u32, holdUntil: u32)

  function Remove(q: seq<u32>, id: u32): seq<u32> {
    if q == [] then [] else (if q[0] == id then [] else [q[0]]) + Remove(q[1..], id)
  }

  function Expire(a: Token, now: u32): Token {
    if a.has && Reached(now, a.leaseEnd) then a.(has := false) else a
  }

  function Request(a: Token, id: u32): (Token, bool) {
    if id in a.queue || (a.has && a.holder == id) then (a, true)
    else if |a.queue| >= QUEUE_CAP then (a, false)
    else (a.(queue := a.queue + [id]), true)
  }

  function Granted(a: Token, id: u32, now: u32): (Token, bool) {
    var e := Expire(a, now);
    if !e.has && |e.queue| > 0 && e.queue[0] == id && Reached(now, e.holdUntil) then
      (Token(e.queue[1..], true, id, Wrap32(now + LEASE_S), e.holdUntil), true)
    else (e, e.has && e.holder == id)
  }

  function Cancel(a: Token, id: u32): Token {
    if a.has && a.holder == id then a.(has := false) else a.(queue := Remove(a.queue, id))
  }

  function HoldOff(a: Token, now: u32, secs: u32): Token {
    var until := Wrap32(now + secs);
    if !Reached(a.holdUntil, until) then a.(holdUntil := until) else a
  }

  class Arbiter {
    const q: array<u32>
    var n: nat
    var has: bool
    var holder: u32
    var leaseEnd: u32
    var holdUntil: u32

    ghost predicate Valid()
      reads this, q
    {
      q.Length == QUEUE_CAP && n <= QUEUE_CAP
    }

    ghost function Value(): Token
      requires Valid()
      reads this, q
    {
      Token(q[..n], has, holder, leaseEnd, holdUntil)
    }

    constructor ()
      ensures Valid() && fresh(q) && Value() == Token([], false, 0, 0, 0)
    {
      q := new u32[QUEUE_CAP](_ => 0);
      n, has, holder, leaseEnd, holdUntil := 0, false, 0, 0, 0;
    }

    method Queued(id: u32) returns (r: bool)
      requires Valid()
      ensures r == (id in Value().queue)
    {
      for i := 0 to n
        invariant forall k :: 0 <= k < i ==> q[k] != id
      {
        if q[i] == id {
          return true;
        }
      }
      return false;
    }

    method RequestToken(id: u32) returns (r: bool)
      requires Valid()
      modifies this, q
      ensures Valid() && Value() == Request(old(Value()), id).0 && r == Request(old(Value()), id).1
    {
      var queued := Queued(id);
      if queued || (has && holder == id) {
        return true;
      }
      if n >= QUEUE_CAP {
        return false;
      }
      q[n] := id;
      n := n + 1;
      assert q[..n] == old(q[..n]) + [id];
      return true;
    }

    method ExpireLease(now: u32)
      requires Valid()
      modifies this`has
      ensures Valid() && Value() == Expire(old(Value()), now)
    {
      if has && Reached(now, leaseEnd) {
        has := false;
      }
    }

    method PopFront()
      requires Valid() && n > 0
      modifies this`n, q
      ensures Valid() && Value() == old(Value()).(queue := old(Value()).queue[1..])
    {
      var i := 1;
      while i < n
        invariant 1 <= i <= n == old(n)
        invariant forall k :: 0 <= k < i - 1 ==> q[k] == old(q[k + 1])
        invariant forall k :: i - 1 <= k < QUEUE_CAP ==> q[k] == old(q[k])
      {
        q[i - 1] := q[i];
        i := i + 1;
      }
      n := n - 1;
    }

    method RemoveId(id: u32)
      requires Valid()
      modifies this`n, q
      ensures Valid() && Value() == old(Value()).(queue := Remove(old(Value()).queue, id))
    {
      ghost var was := q[..n];
      var w := 0;
      var i := 0;
      while i < n
        invariant 0 <= w <= i <= n && n == old(n)
        invariant q[..w] == Remove(was[..i], id)
        invariant forall k :: i <= k < n ==> q[k] == was[k]
      {
        RemoveNext(was, i, id);
        if q[i] != id {
          q[w] := q[i];
          w := w + 1;
        }
        i := i + 1;
      }
      assert was[..i] == was;
      n := w;
    }

    method IsGranted(id: u32, now: u32) returns (r: bool)
      requires Valid()
      modifies this, q
      ensures Valid() && Value() == Granted(old(Value()), id, now).0 && r == Granted(old(Value()), id, now).1
    {
      ExpireLease(now);
      if !has && n > 0 && q[0] == id && Reached(now, holdUntil) {
        PopFront();
        has := true;
        holder := id;
        leaseEnd := Wrap32(now + LEASE_S);
      }
      r := has && holder == id;
    }

    method HoldsToken(id: u32, now: u32) returns (r: bool)
      requires Valid()
      modifies this`has
      ensures Valid() && Value() == Expire(old(Value()), now) && r == (Value().has && Value().holder == id)
    {
      ExpireLease(now);
      r := has && holder == id;
    }

    method CancelId(id: u32)
      requires Valid()
      modifies this, q
      ensures Valid() && Value() == Cancel(old(Value()), id)
    {
      if has && holder == id {
        has := false;
        return;
      }
      RemoveId(id);
    }

    method Postpone(now: u32, secs: u32)
      requires Valid()
      modifies this`holdUntil
      ensures Valid() && Value() == HoldOff(old(Value()), now, secs)
    {
      var until := Wrap32(now + secs);
      if !Reached(holdUntil, until) {
        holdUntil := until;
      }
    }
  }

  lemma RemoveNext(was: seq<u32>, i: nat, id: u32)
    requires i < |was|
    ensures Remove(was[..i + 1], id) == Remove(was[..i], id) + (if was[i] == id then [] else [was[i]])
  {
    RemoveAppend(was[..i], was[i], id);
    assert was[..i] + [was[i]] == was[..i + 1];
  }

  lemma {:induction false} RemoveAppend(q: seq<u32>, x: u32, id: u32)
    ensures Remove(q + [x], id) == Remove(q, id) + (if x == id then [] else [x])
    decreases |q|
  {
    if q == [] {
      assert (q + [x])[1..] == [];
    } else {
      assert (q + [x])[1..] == q[1..] + [x];
      RemoveAppend(q[1..], x, id);
    }
  }

  // ---- the per-node policy --------------------------------------------------

  datatype Inputs = Inputs(supervised: bool, sessionOk: bool, awake: bool, sSinceGridAck: u32, promoted: bool,
                           busy: bool, otherTest: bool, warmupRunning: bool, reportOk: bool)

  datatype Gate =
    | GateOk | NotSupervised | NoSession | Asleep | GridNotAcked | GridSettling | Promoted | Busy | OtherTest

  function CommonGate(inp: Inputs): Gate {
    if !inp.supervised then NotSupervised
    else if !inp.sessionOk then NoSession
    else if !inp.awake then Asleep
    else GateOk
  }

  function StartGate(inp: Inputs): Gate {
    if inp.sSinceGridAck == NOT_ACKED then GridNotAcked
    else if inp.sSinceGridAck < GRID_SETTLE_S then GridSettling
    else if inp.promoted then Promoted
    else if inp.busy then Busy
    else if inp.otherTest then OtherTest
    else GateOk
  }

  datatype Phase = Idle | Queued | Warming | Verifying
  datatype Event = Nothing | Start | Yield | DropOut | Succeeded | Failed

  datatype Sup = Sup(phase: Phase, armed: bool, failures: u32, notBefore: u32, startedS: u32, verifyUntil: u32)

  const FRESH := Sup(Idle, false, 0, 0, 0, 0)

  /** What a step yields: the supervisor, the token, and the event reported. */
  datatype Outcome = Outcome(sup: Sup, token: Token, event: Event)

  function DropsOut(s: Sup, a: Token, id: u32): Outcome {
    Outcome(s.(phase := Idle, armed := false),
            if s.phase.Idle? then a else Cancel(a, id),
            if s.phase.Warming? then DropOut else Nothing)
  }

  function QueuedTick(s: Sup, inp: Inputs, now: u32, a: Token, id: u32): Outcome {
    var g := StartGate(inp);
    if g.Busy? || g.OtherTest? then
      Outcome(s.(phase := Idle, notBefore := Wrap32(now + YIELD_RETRY_S)), Cancel(a, id), Yield)
    else if !g.GateOk? then Outcome(s.(phase := Idle), Cancel(a, id), Nothing)
    else
      var (b, ok) := Granted(a, id, now);
      if ok then Outcome(s.(phase := Warming, startedS := now), b, Start) else Outcome(s, b, Nothing)
  }

  function Arm(s: Sup, now: u32, rnd: u32): Sup {
    if s.armed then s
    else
      var due := Wrap32(now + rnd % (JITTER_MAX_S + 1));
      s.(armed := true, notBefore := if !Reached(s.notBefore, due) then due else s.notBefore)
  }

  function IdleTick(s: Sup, inp: Inputs, now: u32, rnd: u32, a: Token, id: u32): Outcome {
    if inp.promoted then Outcome(s.(failures := 0, armed := false), a, Nothing)
    else
      var t := Arm(s, now, rnd);
      if !Reached(now, t.notBefore) || !StartGate(inp).GateOk? then Outcome(t, a, Nothing)
      else
        var (b, queued) := Request(a, id);
        if !queued then Outcome(t, b, Nothing) else QueuedTick(t.(phase := Queued), inp, now, b, id)
  }

  function WarmingTick(s: Sup, inp: Inputs, now: u32, a: Token, id: u32): Outcome {
    var e := Expire(a, now);
    if !(e.has && e.holder == id) then Outcome(s.(phase := Idle, armed := false), e, DropOut)
    else if inp.warmupRunning then Outcome(s, e, Nothing)
    else Outcome(s.(phase := Verifying, verifyUntil := Wrap32(now + VERIFY_GRACE_S)), Cancel(e, id), Nothing)
  }

  function VerifyingTick(s: Sup, inp: Inputs, now: u32, a: Token): Outcome {
    if inp.promoted || inp.reportOk then
      Outcome(s.(failures := 0, phase := Idle, armed := false, notBefore := Wrap32(now + REARM_HOLD_S)), a, Succeeded)
    else if !Reached(now, s.verifyUntil) then Outcome(s, a, Nothing)
    else
      var k := Wrap32(s.failures + 1);
      Outcome(s.(failures := k, phase := Idle, armed := false, notBefore := Wrap32(now + BackoffS(k))), a, Failed)
  }

  function Tick(s: Sup, inp: Inputs, now: u32, rnd: u32, a: Token, id: u32): Outcome {
    if !CommonGate(inp).GateOk? then DropsOut(s, a, id)
    else
      match s.phase
      case Idle => IdleTick(s, inp, now, rnd, a, id)
      case Queued => QueuedTick(s, inp, now, a, id)
      case Warming => WarmingTick(s, inp, now, a, id)
      case Verifying => VerifyingTick(s, inp, now, a)
  }

  function Restart(s: Sup, a: Token, id: u32): Outcome {
    Outcome(s.(phase := Idle, failures := 0, notBefore := 0, armed := false), Cancel(a, id), Nothing)
  }

  function YieldToOp(s: Sup, now: u32, a: Token, id: u32): Outcome {
    if !s.phase.Warming? then Outcome(s, a, Nothing)
    else Outcome(s.(phase := Idle, armed := false, notBefore := Wrap32(now + YIELD_RETRY_S)), Cancel(a, id), Yield)
  }

  class Supervisor {
    var phase: Phase
    var armed: bool
    var failures: u32
    var notBefore: u32
    var startedS: u32
    var verifyUntil: u32

    ghost function Value(): Sup
      reads this
    {
      Sup(phase, armed, failures, notBefore, startedS, verifyUntil)
    }

    constructor ()
      ensures Value() == FRESH
    {
      phase, armed, failures, notBefore, startedS, verifyUntil := Idle, false, 0, 0, 0, 0;
    }

    method TickOnce(inp: Inputs, now: u32, rnd: u32, arb: Arbiter, id: u32) returns (ev: Event)
      requires arb.Valid()
      modifies this, arb, arb.q
      ensures arb.Valid() && Outcome(Value(), arb.Value(), ev)
              == Tick(old(Value()), inp, now, rnd, old(arb.Value()), id)
    {
      if !CommonGate(inp).GateOk? {
        ev := if phase.Warming? then DropOut else Nothing;
        if !phase.Idle? {
          arb.CancelId(id);
        }
        phase, armed := Idle, false;
        return;
      }
      match phase
      case Idle => ev := IdleStep(inp, now, rnd, arb, id);
      case Queued => ev := QueuedStep(inp, now, arb, id);
      case Warming => ev := WarmingStep(inp, now, arb, id);
      case Verifying => ev := VerifyingStep(inp, now, arb);
    }

    method IdleStep(inp: Inputs, now: u32, rnd: u32, arb: Arbiter, id: u32) returns (ev: Event)
      requires arb.Valid() && phase.Idle?
      modifies this, arb, arb.q
      ensures arb.Valid() && Outcome(Value(), arb.Value(), ev)
              == IdleTick(old(Value()), inp, now, rnd, old(arb.Value()), id)
    {
      if inp.promoted {
        failures, armed := 0, false;
        return Nothing;
      }
      if !armed {
        armed := true;
        var due := Wrap32(now + rnd % (JITTER_MAX_S + 1));
        if !Reached(notBefore, due) {
          notBefore := due;
        }
      }
      if !Reached(now, notBefore) || !StartGate(inp).GateOk? {
        return Nothing;
      }
      var queued := arb.RequestToken(id);
      if !queued {
        return Nothing;
      }
      phase := Queued;
      ev := QueuedStep(inp, now, arb, id);
    }

    method QueuedStep(inp: Inputs, now: u32, arb: Arbiter, id: u32) returns (ev: Event)
      requires arb.Valid()
      modifies this, arb, arb.q
      ensures arb.Valid() && Outcome(Value(), arb.Value(), ev)
              == QueuedTick(old(Value()), inp, now, old(arb.Value()), id)
    {
      var g := StartGate(inp);
      if g.Busy? || g.OtherTest? {
        arb.CancelId(id);
        phase := Idle;
        notBefore := Wrap32(now + YIELD_RETRY_S);
        return Yield;
      }
      if !g.GateOk? {
        arb.CancelId(id);
        phase := Idle;
        return Nothing;
      }
      var granted := arb.IsGranted(id, now);
      if !granted {
        return Nothing;
      }
      phase := Warming;
      startedS := now;
      return Start;
    }

    method WarmingStep(inp: Inputs, now: u32, arb: Arbiter, id: u32) returns (ev: Event)
      requires arb.Valid()
      modifies this, arb, arb.q
      ensures arb.Valid() && Outcome(Value(), arb.Value(), ev)
              == WarmingTick(old(Value()), inp, now, old(arb.Value()), id)
    {
      var mine := arb.HoldsToken(id, now);
      if !mine {
        phase, armed := Idle, false;
        return DropOut;
      }
      if inp.warmupRunning {
        return Nothing;
      }
      arb.CancelId(id);
      phase := Verifying;
      verifyUntil := Wrap32(now + VERIFY_GRACE_S);
      return Nothing;
    }

    method VerifyingStep(inp: Inputs, now: u32, arb: Arbiter) returns (ev: Event)
      requires arb.Valid()
      modifies this
      ensures arb.Valid() && Outcome(Value(), arb.Value(), ev)
              == VerifyingTick(old(Value()), inp, now, old(arb.Value()))
    {
      if inp.promoted || inp.reportOk {
        failures, phase, armed := 0, Idle, false;
        notBefore := Wrap32(now + REARM_HOLD_S);
        return Succeeded;
      }
      if !Reached(now, verifyUntil) {
        return Nothing;
      }
      failures := Wrap32(failures + 1);
      phase, armed := Idle, false;
      notBefore := Wrap32(now + BackoffS(failures));
      return Failed;
    }

    method StartAfresh(arb: Arbiter, id: u32)
      requires arb.Valid()
      modifies this, arb, arb.q
      ensures arb.Valid() && Outcome(Value(), arb.Value(), Nothing) == Restart(old(Value()), old(arb.Value()), id)
    {
      arb.CancelId(id);
      phase, failures, notBefore, armed := Idle, 0, 0, false;
    }

    method YieldNow(arb: Arbiter, id: u32, now: u32) returns (yielded: bool)
      requires arb.Valid()
      modifies this, arb, arb.q
      ensures arb.Valid()
      ensures Outcome(Value(), arb.Value(), if yielded then Yield else Nothing)
              == YieldToOp(old(Value()), now, old(arb.Value()), id)
    {
      if !phase.Warming? {
        return false;
      }
      arb.CancelId(id);
      phase, armed := Idle, false;
      notBefore := Wrap32(now + YIELD_RETRY_S);
      return true;
    }
  }
}
