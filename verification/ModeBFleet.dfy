/**
 A fleet of supervisors on one token, interleaved in any order: the token's queue
 and holder match the phases, at most one warm-up is on the air, the queue is
 first in first out, waiting is bounded, and the backoff is kept.
 */
module ModeBFleet {
  import opened Machine
  import opened ModeBSupervisor

  /** Node i of the fleet asks for the token under id i. */
  datatype Fleet = Fleet(token: Token, sups: seq<Sup>)

  datatype Action =
    | Ticks(i: u32, inp: Inputs, rnd: u32)
    | Restarts(i: u32)
    | Yields(i: u32)
    | OpIssued(secs: u32)           // an op anywhere postpones the next grant

  predicate Acts(f: Fleet, act: Action) {
    act.OpIssued? || act.i < |f.sups|
  }

  function Does(f: Fleet, act: Action, now: u32): Outcome
    requires Acts(f, act) && !act.OpIssued?
  {
    match act
    case Ticks(i, inp, rnd) => Tick(f.sups[i], inp, now, rnd, f.token, i)
    case Restarts(i) => Restart(f.sups[i], f.token, i)
    case Yields(i) => YieldToOp(f.sups[i], now, f.token, i)
  }

  function Step(f: Fleet, act: Action, now: u32): Fleet
    requires Acts(f, act)
  {
    if act.OpIssued? then f.(token := HoldOff(f.token, now, act.secs))
    else Fleet(Does(f, act, now).token, f.sups[act.i := Does(f, act, now).sup])
  }

  /** The queue holds exactly the Queued nodes, each once; a holder is Warming. */
  ghost predicate Inv(f: Fleet) {
    && Distinct(f.token.queue)
    && (forall i: u32 :: i in f.token.queue <==> i < |f.sups| && f.sups[i].phase.Queued?)
    && (f.token.has ==> f.token.holder < |f.sups| && f.sups[f.token.holder].phase.Warming?)
  }

  // ---- the queue as a list --------------------------------------------------

  lemma {:induction false} RemoveMembers(q: seq<u32>, id: u32)
    ensures forall x :: x in Remove(q, id) <==> x in q && x != id
    decreases |q|
  {
    if q != [] {
      RemoveMembers(q[1..], id);
    }
  }

  lemma {:induction false} RemoveKeepsDistinct(q: seq<u32>, id: u32)
    requires Distinct(q)
    ensures Distinct(Remove(q, id))
    decreases |q|
  {
    if q != [] {
      RemoveKeepsDistinct(q[1..], id);
      RemoveMembers(q[1..], id);
      if q[0] != id {
        DistinctPrepend(q[0], Remove(q[1..], id));
      }
    }
  }

  lemma {:induction false} RemoveAbsent(q: seq<u32>, id: u32)
    requires id !in q
    ensures Remove(q, id) == q
    decreases |q|
  {
    if q != [] {
      RemoveAbsent(q[1..], id);
    }
  }

  lemma RemoveFront(q: seq<u32>)
    requires q != [] && Distinct(q)
    ensures Remove(q, q[0]) == q[1..]
  {
    RemoveAbsent(q[1..], q[0]);
  }

  // ---- one step -------------------------------------------------------------

  /** The lease still stands: not run out, not given up. */
  ghost predicate SameLease(a: Token, b: Token) {
    a.has && b.has && b.holder == a.holder && b.leaseEnd == a.leaseEnd
  }

  /** Node i takes a token that is free, from the front of the queue. */
  ghost predicate Takes(a: Token, b: Token, i: u32, now: u32) {
    && !Expire(a, now).has && Reached(now, a.holdUntil)
    && (a.queue == [] || a.queue[0] == i)
    && b.has && b.holder == i && b.leaseEnd == Wrap32(now + LEASE_S)
  }

  /** Everything one node's step does to the token: node i may leave the queue or
      join its end, a lease may run out or be given up by its holder, and i may
      take the token, which is exactly when its warm-up starts. */
  ghost predicate TokenChange(a: Token, i: u32, s: Sup, now: u32, o: Outcome) {
    var b := o.token;
    && b.holdUntil == a.holdUntil
    && (b.queue == a.queue || b.queue == Remove(a.queue, i) || b.queue == a.queue + [i])
    && (o.event.Start? ==> Takes(a, b, i, now) && o.sup.phase.Warming?)
    && (!o.event.Start? && b.has ==> SameLease(a, b))
    && (!o.event.Start? && a.has && !b.has ==> Reached(now, a.leaseEnd) || a.holder == i)
    && (o.sup.phase.Warming? ==> s.phase.Warming? || o.event.Start?)
  }

  /** What the token says of node i fits the node's phase. */
  ghost predicate Agrees(a: Token, s: Sup, i: u32) {
    && Distinct(a.queue)
    && (i in a.queue <==> s.phase.Queued?)
    && (a.has && a.holder == i ==> s.phase.Warming?)
  }

  lemma CancelMembers(a: Token, s: Sup, i: u32)
    requires Agrees(a, s, i)
    ensures var b := Cancel(a, i);
            Distinct(b.queue) && i !in b.queue && !(b.has && b.holder == i)
            && (b.queue == a.queue || b.queue == Remove(a.queue, i))
  {
    RemoveMembers(a.queue, i);
    RemoveKeepsDistinct(a.queue, i);
  }

  /** A grant takes the head off the line; otherwise at most a lease runs out. */
  lemma GrantChange(a: Token, i: u32, now: u32)
    requires Distinct(a.queue) && i in a.queue && !(a.has && a.holder == i)
    ensures var (b, ok) := Granted(a, i, now);
            && b.holdUntil == a.holdUntil && Distinct(b.queue) && (i in b.queue <==> !ok)
            && (ok ==> Takes(a, b, i, now) && b.queue == Remove(a.queue, i))
            && (!ok ==> b == Expire(a, now))
  {
    if a.queue[0] == i {
      RemoveFront(a.queue);
      RemoveMembers(a.queue, i);
      RemoveKeepsDistinct(a.queue, i);
    }
  }

  lemma QueuedChange(s: Sup, inp: Inputs, now: u32, a: Token, i: u32)
    requires Agrees(a, s, i) && s.phase.Queued?
    ensures var o := QueuedTick(s, inp, now, a, i);
            TokenChange(a, i, s, now, o) && Agrees(o.token, o.sup, i)
  {
    if StartGate(inp).GateOk? {
      GrantChange(a, i, now);
    } else {
      CancelMembers(a, s, i);
    }
  }

  /** Joining the line: at its end, or through it at once when it was empty. */
  lemma JoinChange(a: Token, i: u32, now: u32)
    requires Distinct(a.queue) && i !in a.queue && !(a.has && a.holder == i)
    ensures var (b, ok) := Granted(a.(queue := a.queue + [i]), i, now);
            && b.holdUntil == a.holdUntil
            && (ok ==> Takes(a, b, i, now) && b.queue == a.queue == [])
            && (!ok ==> b.queue == a.queue + [i] && Distinct(b.queue) && !(b.has && b.holder == i)
                        && (b.has ==> SameLease(a, b)) && (a.has && !b.has ==> Reached(now, a.leaseEnd)))
  {
    DistinctAppend(a.queue, i);
    if a.queue != [] {
      assert (a.queue + [i])[0] == a.queue[0];
    }
  }

  lemma IdleChange(s: Sup, inp: Inputs, now: u32, rnd: u32, a: Token, i: u32)
    requires Agrees(a, s, i) && s.phase.Idle?
    ensures var o := IdleTick(s, inp, now, rnd, a, i);
            TokenChange(a, i, s, now, o) && Agrees(o.token, o.sup, i)
  {
    JoinChange(a, i, now);
  }

  lemma TickChange(s: Sup, inp: Inputs, now: u32, rnd: u32, a: Token, i: u32)
    requires Agrees(a, s, i)
    ensures var o := Tick(s, inp, now, rnd, a, i);
            TokenChange(a, i, s, now, o) && Agrees(o.token, o.sup, i)
  {
    CancelMembers(a, s, i);
    CancelMembers(Expire(a, now), s, i);
    if CommonGate(inp).GateOk? {
      match s.phase
      case Idle => IdleChange(s, inp, now, rnd, a, i);
      case Queued => QueuedChange(s, inp, now, a, i);
      case _ =>
    }
  }

  lemma DoesChange(f: Fleet, act: Action, now: u32)
    requires Inv(f) && Acts(f, act) && !act.OpIssued?
    ensures var o := Does(f, act, now);
            TokenChange(f.token, act.i, f.sups[act.i], now, o) && Agrees(o.token, o.sup, act.i)
  {
    CancelMembers(f.token, f.sups[act.i], act.i);
    match act
    case Ticks(i, inp, rnd) => TickChange(f.sups[i], inp, now, rnd, f.token, i);
    case _ =>
  }

  lemma OthersInQueue(a: Token, i: u32, s: Sup, now: u32, o: Outcome, x: u32)
    requires TokenChange(a, i, s, now, o) && x != i
    ensures x in o.token.queue <==> x in a.queue
  {
    RemoveMembers(a.queue, i);
  }

  /** Any tick, restart, yield or hold-off, of any node, keeps queue and phases in
      step, for any number of nodes. */
  lemma StepKeepsInv(f: Fleet, act: Action, now: u32)
    requires Inv(f) && Acts(f, act)
    ensures Inv(Step(f, act, now))
  {
    if !act.OpIssued? {
      DoesChange(f, act, now);
      var o := Does(f, act, now);
      var g := Step(f, act, now);
      forall x: u32
        ensures x in g.token.queue <==> x < |g.sups| && g.sups[x].phase.Queued?
      {
        if x != act.i {
          OthersInQueue(f.token, act.i, f.sups[act.i], now, o, x);
        }
      }
    }
  }

  /** First in, first out: a step only removes its node or appends it, and a
      warm-up starts only at the head of the line. */
  lemma StepIsFifo(f: Fleet, act: Action, now: u32)
    requires Inv(f) && Acts(f, act) && !act.OpIssued?
    ensures var q, r := f.token.queue, Step(f, act, now).token.queue;
            r == q || r == Remove(q, act.i) || r == q + [act.i]
    ensures Does(f, act, now).event.Start? ==> f.token.queue == [] || f.token.queue[0] == act.i
  {
    DoesChange(f, act, now);
  }

  /** A warming node whose token is gone reports it at its very next tick. */
  lemma LostTokenIsReported(f: Fleet, i: u32, inp: Inputs, rnd: u32, now: u32)
    requires i < |f.sups| && f.sups[i].phase.Warming?
    requires var e := Expire(f.token, now); !(e.has && e.holder == i)
    ensures var o := Does(f, Ticks(i, inp, rnd), now);
            o.event.DropOut? && o.sup.phase.Idle?
  {
  }

  datatype Seen = Seen(act: Action, now: u32)

  /** Steps of the other nodes, at any moments. */
  ghost predicate OthersOnly(f: Fleet, run: seq<Seen>, i: u32, g: Fleet)
    decreases |run|
  {
    if run == [] then f == g
    else
      var s := run[0];
      Acts(f, s.act) && (!s.act.OpIssued? ==> s.act.i != i) && OthersOnly(Step(f, s.act, s.now), run[1..], i, g)
  }

  predicate Lost(f: Fleet, i: u32) {
    i < |f.sups| && f.sups[i].phase.Warming? && !(f.token.has && f.token.holder == i)
  }

  /** However the others act and however late it is ticked: a node that lost its token while
      warming has not got it back by its next tick, and reports DropOut there. */
  lemma {:induction false} LostUntilReported(f: Fleet, run: seq<Seen>, i: u32, g: Fleet, inp: Inputs, rnd: u32,
                                             now: u32)
    requires Inv(f) && Lost(f, i) && OthersOnly(f, run, i, g)
    ensures Lost(g, i)
    ensures var o := Does(g, Ticks(i, inp, rnd), now);
            o.event.DropOut? && o.sup.phase.Idle?
    decreases |run|
  {
    if run == [] {
      LostTokenIsReported(g, i, inp, rnd, now);
    } else {
      var s := run[0];
      StepKeepsInv(f, s.act, s.now);
      if !s.act.OpIssued? {
        DoesChange(f, s.act, s.now);
      }
      LostUntilReported(Step(f, s.act, s.now), run[1..], i, g, inp, rnd, now);
    }
  }

  // ---- runs in time ---------------------------------------------------------

  const STOP_S: int := WARMUP_S + 5                  // the hub's stop timer ends a warm-up by then
  const TURN_S: int := WARMUP_S + 5 + 2 * TICK_S     // one node's share of worstCaseAllNodesS

  /** True seconds, unbounded; the code sees them modulo 2^32. */
  datatype Timed = Timed(f: Fleet, at: nat, tickAt: seq<int>, startAt: seq<int>)

  ghost predicate WellTimed(z: Timed) {
    |z.tickAt| == |z.startAt| == |z.f.sups|
  }

  /** Premises: a queued or warming node is ticked every kTickS, and a warm-up no
      longer runs kWarmupS + 5 after its start. */
  ghost predicate Prompt(z: Timed, act: Action, at: nat)
    requires WellTimed(z)
  {
    && Acts(z.f, act) && at >= z.at
    && (forall j :: 0 <= j < |z.f.sups| && (z.f.sups[j].phase.Queued? || z.f.sups[j].phase.Warming?) ==>
          at <= z.tickAt[j] + TICK_S)
    && (act.Ticks? && z.f.sups[act.i].phase.Warming? && at >= z.startAt[act.i] + STOP_S ==> !act.inp.warmupRunning)
  }

  function Starts(z: Timed, act: Action, at: nat): bool
    requires Acts(z.f, act)
  {
    !act.OpIssued? && Does(z.f, act, Wrap32(at)).event.Start?
  }

  function StepAt(z: Timed, act: Action, at: nat): Timed
    requires WellTimed(z) && Acts(z.f, act)
  {
    Timed(Step(z.f, act, Wrap32(at)), at,
          if act.Ticks? then z.tickAt[act.i := at] else z.tickAt,
          if Starts(z, act, at) then z.startAt[act.i := at] else z.startAt)
  }

  /** A warming node holds the token under a lease of 90 s from its start, and was
      last ticked before its warm-up's end. */
  ghost predicate Holding(z: Timed, i: int)
    requires WellTimed(z) && 0 <= i < |z.f.sups|
  {
    && z.f.token.has && z.f.token.holder == i
    && z.f.token.leaseEnd == Wrap32(z.startAt[i] + LEASE_S)
    && z.startAt[i] <= z.tickAt[i] <= z.at && z.tickAt[i] < z.startAt[i] + STOP_S
  }

  ghost predicate TimedInv(z: Timed) {
    && WellTimed(z) && Inv(z.f)
    && (forall i :: 0 <= i < |z.f.sups| && z.f.sups[i].phase.Warming? ==> Holding(z, i))
    && (forall i :: 0 <= i < |z.f.sups| && z.f.sups[i].phase.Queued? ==> z.tickAt[i] <= z.at)
  }

  /** While ticks are prompt no lease runs out. */
  lemma LeaseStands(z: Timed, act: Action, at: nat)
    requires TimedInv(z) && Prompt(z, act, at) && z.f.token.has
    ensures Expire(z.f.token, Wrap32(at)) == z.f.token
    ensures !Reached(Wrap32(at), z.f.token.leaseEnd)
  {
    var h := z.f.token.holder;
    assert Holding(z, h);
    ReachedIsOrder(at, z.startAt[h] + LEASE_S);
  }

  /** Only the holder can warm; a warming node still warming was not stopped yet. */
  lemma WarmingStays(z: Timed, act: Action, at: nat)
    requires TimedInv(z) && Prompt(z, act, at) && !act.OpIssued?
    requires z.f.sups[act.i].phase.Warming? && Does(z.f, act, Wrap32(at)).sup.phase.Warming?
    ensures act.Ticks? && act.inp.warmupRunning && at < z.startAt[act.i] + STOP_S
    ensures Does(z.f, act, Wrap32(at)).token == z.f.token
    ensures Does(z.f, act, Wrap32(at)).event.Nothing?
  {
    assert Holding(z, act.i);
    LeaseStands(z, act, at);
  }

  lemma ActorHolds(z: Timed, act: Action, at: nat)
    requires TimedInv(z) && Prompt(z, act, at) && !act.OpIssued?
    requires Does(z.f, act, Wrap32(at)).sup.phase.Warming?
    ensures Holding(StepAt(z, act, at), act.i)
  {
    DoesChange(z.f, act, Wrap32(at));
    if z.f.sups[act.i].phase.Warming? {
      WarmingStays(z, act, at);
      assert Holding(z, act.i);
    } else {
      assert Wrap32(Wrap32(at) + LEASE_S) == Wrap32(at + LEASE_S);
    }
  }

  lemma OthersHold(z: Timed, act: Action, at: nat, i: int)
    requires TimedInv(z) && Prompt(z, act, at) && !act.OpIssued?
    requires 0 <= i < |z.f.sups| && i != act.i && z.f.sups[i].phase.Warming?
    ensures Holding(StepAt(z, act, at), i)
  {
    assert Holding(z, i);
    LeaseStands(z, act, at);
    DoesChange(z.f, act, Wrap32(at));
  }

  lemma StepKeepsTimedInv(z: Timed, act: Action, at: nat)
    requires TimedInv(z) && Prompt(z, act, at)
    ensures TimedInv(StepAt(z, act, at))
  {
    StepKeepsInv(z.f, act, Wrap32(at));
    var y := StepAt(z, act, at);
    forall i | 0 <= i < |y.f.sups| && y.f.sups[i].phase.Warming?
      ensures Holding(y, i)
    {
      if act.OpIssued? {
        assert Holding(z, i);
      } else if i == act.i {
        ActorHolds(z, act, at);
      } else {
        OthersHold(z, act, at, i);
      }
    }
  }

  datatype Moment = Moment(act: Action, at: nat)

  ghost predicate Reaches(z: Timed, run: seq<Moment>, y: Timed)
    requires WellTimed(z)
    decreases |run|
  {
    if run == [] then z == y
    else Prompt(z, run[0].act, run[0].at) && Reaches(StepAt(z, run[0].act, run[0].at), run[1..], y)
  }

  lemma {:induction false} RunKeepsTimedInv(z: Timed, run: seq<Moment>, y: Timed)
    requires TimedInv(z) && Reaches(z, run, y)
    ensures TimedInv(y)
    decreases |run|
  {
    if run != [] {
      StepKeepsTimedInv(z, run[0].act, run[0].at);
      RunKeepsTimedInv(StepAt(z, run[0].act, run[0].at), run[1..], y);
    }
  }

  /** The fleet as it boots: everyone Idle, the token free. */
  function Boot(n: nat, at: nat): Timed {
    Timed(Fleet(Token([], false, 0, 0, 0), seq(n, _ => FRESH)), at, seq(n, _ => at as int), seq(n, _ => at as int))
  }

  /** Mutual exclusion: in no run are two nodes ever warming together. */
  lemma OneWarmUpAtATime(n: nat, at: nat, run: seq<Moment>, y: Timed)
    requires Reaches(Boot(n, at), run, y)
    ensures forall i, j :: (0 <= i < |y.f.sups| && 0 <= j < |y.f.sups|
                            && y.f.sups[i].phase.Warming? && y.f.sups[j].phase.Warming?) ==> i == j
  {
    RunKeepsTimedInv(Boot(n, at), run, y);
    forall i, j | 0 <= i < |y.f.sups| && 0 <= j < |y.f.sups|
      && y.f.sups[i].phase.Warming? && y.f.sups[j].phase.Warming?
      ensures i == j
    {
      assert Holding(y, i) && Holding(y, j);
    }
  }

  // ---- bounded waiting ------------------------------------------------------

  function Pos(q: seq<u32>, id: u32): (k: nat)
    requires id in q
    ensures k < |q| && q[k] == id
    decreases |q|
  {
    if q[0] == id then 0 else 1 + Pos(q[1..], id)
  }

  lemma {:induction false} PosAfterRemove(q: seq<u32>, x: u32, id: u32)
    requires id in q && x != id && Distinct(q)
    ensures id in Remove(q, x) && Pos(Remove(q, x), id) <= Pos(q, id)
    ensures q[0] == x ==> Pos(Remove(q, x), id) == Pos(q, id) - 1
    ensures q[0] != x ==> Remove(q, x)[0] == q[0]
    decreases |q|
  {
    RemoveMembers(q, x);
    if q[0] == x {
      RemoveFront(q);
    } else if q[0] != id {
      PosAfterRemove(q[1..], x, id);
      assert Remove(q, x)[1..] == Remove(q[1..], x);
    }
  }

  lemma {:induction false} PosAfterAppend(q: seq<u32>, x: u32, id: u32)
    requires id in q
    ensures Pos(q + [x], id) == Pos(q, id)
    decreases |q|
  {
    if q[0] != id {
      assert (q + [x])[1..] == q[1..] + [x];
      PosAfterAppend(q[1..], x, id);
    }
  }

  /** When the head of the line will have started, at the latest. */
  function Ready(z: Timed): int
    requires WellTimed(z) && z.f.token.queue != [] && z.f.token.queue[0] < |z.f.sups|
    requires z.f.token.has ==> z.f.token.holder < |z.f.sups|
  {
    if z.f.token.has then z.startAt[z.f.token.holder] + TURN_S else z.tickAt[z.f.token.queue[0]] + TICK_S
  }

  ghost predicate Waits(z: Timed, me: u32) {
    && TimedInv(z) && me < |z.f.sups| && z.f.sups[me].phase.Queued?
    && me in z.f.token.queue && z.f.token.queue[0] in z.f.token.queue
  }

  /** When node `me` will have started: one turn for each node ahead of it. */
  function Bound(z: Timed, me: u32): int
    requires Waits(z, me)
  {
    Ready(z) + TURN_S * Pos(z.f.token.queue, me)
  }

  /** No hold-off is running, and `me` itself is only ticked, with its gates open.
      The other nodes are free to drop out, yield, restart and join. */
  ghost predicate Open(z: Timed, act: Action, at: nat, me: u32)
    requires WellTimed(z)
  {
    && Prompt(z, act, at)
    && Reached(Wrap32(at), z.f.token.holdUntil)
    && (!act.OpIssued? && act.i == me ==>
          act.Ticks? && CommonGate(act.inp).GateOk? && StartGate(act.inp).GateOk?)
  }

  /** The head of a free line starts at its tick, unless it leaves. */
  lemma HeadMoves(z: Timed, act: Action, at: nat, me: u32)
    requires Waits(z, me) && Open(z, act, at, me) && act.Ticks?
    requires !z.f.token.has && z.f.token.queue[0] == act.i
    ensures var o := Does(z.f, act, Wrap32(at));
            o.event.Start? || act.i !in o.token.queue
  {
    var o := Does(z.f, act, Wrap32(at));
    assert act.i in z.f.token.queue;
    DoesChange(z.f, act, Wrap32(at));
  }

  /** `me` leaves the queue only by starting. */
  lemma OnlyLeavesToStart(z: Timed, act: Action, at: nat, me: u32)
    requires Waits(z, me) && Open(z, act, at, me)
    ensures StepAt(z, act, at).f.sups[me].phase.Queued? || (Starts(z, act, at) && act.i == me)
  {
  }

  /** At any moment the head of the line is not overdue. */
  lemma NotOverdue(z: Timed, act: Action, at: nat, me: u32)
    requires Waits(z, me) && Open(z, act, at, me)
    ensures at <= Ready(z)
    ensures z.f.token.has ==> at + 2 <= Ready(z)
  {
    if z.f.token.has {
      assert Holding(z, z.f.token.holder);
    }
  }

  /** What a step does to the place of a waiting node: the head of the line leaves
      and everyone moves up, or the head stays and nobody moves back. */
  lemma LineMoves(z: Timed, act: Action, at: nat, me: u32)
    requires Waits(z, me) && Open(z, act, at, me) && !act.OpIssued?
    requires StepAt(z, act, at).f.sups[me].phase.Queued?
    ensures Waits(StepAt(z, act, at), me)
    ensures var q, r := z.f.token.queue, StepAt(z, act, at).f.token.queue;
            && Pos(r, me) <= Pos(q, me)
            && (r[0] == q[0] || (q[0] == act.i && act.i !in r && Pos(r, me) == Pos(q, me) - 1))
  {
    StepKeepsTimedInv(z, act, at);
    var q := z.f.token.queue;
    var y := StepAt(z, act, at);
    assert me in y.f.token.queue;
    DoesChange(z.f, act, Wrap32(at));
    if act.i == me {
      RemoveMembers(q, me);
    } else {
      PosAfterRemove(q, act.i, me);
      RemoveMembers(q, act.i);
    }
    PosAfterAppend(q, act.i, me);
  }

  lemma BoundKeptWhileHeld(z: Timed, act: Action, at: nat, me: u32)
    requires Waits(z, me) && Open(z, act, at, me) && !act.OpIssued? && z.f.token.has
    requires Waits(StepAt(z, act, at), me)
    ensures Bound(StepAt(z, act, at), me) <= Bound(z, me)
  {
    var y := StepAt(z, act, at);
    LineMoves(z, act, at, me);
    NotOverdue(z, act, at, me);
    LeaseStands(z, act, at);
    DoesChange(z.f, act, Wrap32(at));
    assert z.f.sups[z.f.token.holder].phase.Warming?;
    if !y.f.token.has {
      assert y.tickAt[y.f.token.queue[0]] <= at;
    }
  }

  lemma BoundKeptWhenHeadStays(z: Timed, act: Action, at: nat, me: u32)
    requires Waits(z, me) && Open(z, act, at, me) && !act.OpIssued? && !z.f.token.has
    requires Waits(StepAt(z, act, at), me) && !Starts(z, act, at)
    requires StepAt(z, act, at).f.token.queue[0] == z.f.token.queue[0]
    ensures Bound(StepAt(z, act, at), me) <= Bound(z, me)
  {
    LineMoves(z, act, at, me);
    DoesChange(z.f, act, Wrap32(at));
    if z.f.token.queue[0] == act.i && act.Ticks? {
      HeadMoves(z, act, at, me);
    }
  }

  lemma BoundKeptWhenHeadLeaves(z: Timed, act: Action, at: nat, me: u32)
    requires Waits(z, me) && Open(z, act, at, me) && !act.OpIssued? && !z.f.token.has
    requires Waits(StepAt(z, act, at), me)
    requires Starts(z, act, at) || StepAt(z, act, at).f.token.queue[0] != z.f.token.queue[0]
    ensures Bound(StepAt(z, act, at), me) <= Bound(z, me)
  {
    LineMoves(z, act, at, me);
    NotOverdue(z, act, at, me);
    HeadLeaves(z, act, at, me);
  }

  /** The turn after a head that left begins now. */
  lemma HeadLeaves(z: Timed, act: Action, at: nat, me: u32)
    requires Waits(z, me) && Open(z, act, at, me) && !act.OpIssued? && !z.f.token.has
    requires Waits(StepAt(z, act, at), me)
    requires Starts(z, act, at) || StepAt(z, act, at).f.token.queue[0] != z.f.token.queue[0]
    ensures Ready(StepAt(z, act, at)) <= at + TURN_S
    ensures Starts(z, act, at) ==> act.i !in StepAt(z, act, at).f.token.queue && z.f.token.queue[0] == act.i
  {
    var y := StepAt(z, act, at);
    DoesChange(z.f, act, Wrap32(at));
    assert y.f.token.has || y.tickAt[y.f.token.queue[0]] <= at;
  }

  lemma BoundNeverGrows(z: Timed, act: Action, at: nat, me: u32)
    requires Waits(z, me) && Open(z, act, at, me)
    requires StepAt(z, act, at).f.sups[me].phase.Queued?
    ensures Waits(StepAt(z, act, at), me) && Bound(StepAt(z, act, at), me) <= Bound(z, me)
  {
    StepKeepsTimedInv(z, act, at);
    if !act.OpIssued? {
      LineMoves(z, act, at, me);
      if z.f.token.has {
        BoundKeptWhileHeld(z, act, at, me);
      } else if Starts(z, act, at) || StepAt(z, act, at).f.token.queue[0] != z.f.token.queue[0] {
        BoundKeptWhenHeadLeaves(z, act, at, me);
      } else {
        BoundKeptWhenHeadStays(z, act, at, me);
      }
    }
  }

  ghost predicate OpenRun(z: Timed, run: seq<Moment>, me: u32, y: Timed)
    requires WellTimed(z)
    decreases |run|
  {
    if run == [] then z == y
    else Open(z, run[0].act, run[0].at, me) && OpenRun(StepAt(z, run[0].act, run[0].at), run[1..], me, y)
  }

  /** Somewhere in the run `me` starts its warm-up, no later than `limit`. */
  ghost predicate StartsBy(z: Timed, run: seq<Moment>, me: u32, limit: int)
    requires WellTimed(z)
    decreases |run|
  {
    && run != [] && Acts(z.f, run[0].act)
    && ((Starts(z, run[0].act, run[0].at) && run[0].act.i == me && run[0].at <= limit)
        || StartsBy(StepAt(z, run[0].act, run[0].at), run[1..], me, limit))
  }

  lemma InTime(z: Timed, act: Action, at: nat, me: u32)
    requires Waits(z, me) && Open(z, act, at, me)
    ensures at <= Bound(z, me)
    ensures StepAt(z, act, at).at == at
  {
    NotOverdue(z, act, at, me);
  }

  lemma OneStepTowards(z: Timed, act: Action, at: nat, me: u32, limit: int)
    requires Waits(z, me) && Open(z, act, at, me) && z.at <= limit && Bound(z, me) <= limit
    ensures var y := StepAt(z, act, at);
            || (Starts(z, act, at) && act.i == me && at <= limit)
            || (Waits(y, me) && y.at <= limit && Bound(y, me) <= limit)
  {
    OnlyLeavesToStart(z, act, at, me);
    InTime(z, act, at, me);
    if StepAt(z, act, at).f.sups[me].phase.Queued? {
      BoundNeverGrows(z, act, at, me);
    }
  }

  lemma {:induction false} StartsByLimit(z: Timed, run: seq<Moment>, me: u32, y: Timed, limit: int)
    requires Waits(z, me) && OpenRun(z, run, me, y) && z.at <= limit && Bound(z, me) <= limit
    ensures StartsBy(z, run, me, limit) || (Waits(y, me) && y.at <= limit)
    decreases |run|
  {
    if run != [] {
      OneStepTowards(z, run[0].act, run[0].at, me, limit);
      if !(Starts(z, run[0].act, run[0].at) && run[0].act.i == me && run[0].at <= limit) {
        StartsByLimit(StepAt(z, run[0].act, run[0].at), run[1..], me, y, limit);
      }
    }
  }

  lemma BoundFromNow(z: Timed, me: u32)
    requires Waits(z, me)
    ensures Bound(z, me) <= z.at + TURN_S * (Pos(z.f.token.queue, me) + 1)
  {
    if z.f.token.has {
      assert Holding(z, z.f.token.holder);
    }
  }

  /** A node at queue position k starts within (k + 1) turns of 69 s, however the
      other nodes behave: a run in which it has not started yet is no longer. */
  lemma BoundedWaiting(z: Timed, run: seq<Moment>, me: u32, y: Timed, limit: int)
    requires Waits(z, me) && OpenRun(z, run, me, y)
    requires limit == z.at + 69 * (Pos(z.f.token.queue, me) + 1)
    ensures StartsBy(z, run, me, limit) || (Waits(y, me) && y.at <= limit)
  {
    BoundFromNow(z, me);
    StartsByLimit(z, run, me, y, limit);
  }
}
