/**
 A node that is free to warm up does: when an idle supervisor asks for the token, by when
 it has started, and how a warm-up ends (ModeBSupervisor.h).
 */
module ModeBProgress {
  import opened Machine
  import opened ModeBSupervisor
  import opened ModeBFleet

  const UPTIME_S: int := 0x8000_0000 - 4000

  // ---- when an idle node asks -----------------------------------------------

  predicate GatesOpen(inp: Inputs) {
    CommonGate(inp).GateOk? && StartGate(inp).GateOk?
  }

  /** The inputs under which a warm-up may start, in the words of the inputs themselves. */
  lemma GatesOpenIff(inp: Inputs)
    ensures GatesOpen(inp)
       <==> inp.supervised && inp.sessionOk && inp.awake && 75 <= inp.sSinceGridAck < 0xFFFF_FFFF
            && !inp.promoted && !inp.busy && !inp.otherTest
  {
  }

  /** It stands in line or is warming up already. */
  predicate AskedFor(o: Outcome) {
    o.sup.phase.Queued? || o.event.Start?
  }

  /** An idle node asks at a tick exactly when its gates are open, its time has come and the
      line has room. */
  lemma AsksIff(s: Sup, inp: Inputs, now: u32, rnd: u32, a: Token, id: u32)
    requires s.phase.Idle? && id !in a.queue && !(a.has && a.holder == id)
    ensures AskedFor(Tick(s, inp, now, rnd, a, id))
       <==> GatesOpen(inp) && Reached(now, Arm(s, now, rnd).notBefore) && |a.queue| < QUEUE_CAP
  {
  }

  /** What a queued node's tick can do, in the words of its inputs: with no grid to stand on,
      or promoted, it leaves quietly; with the air busy or another test on it yields for 30 s;
      else it starts exactly when it heads the line, no hold-off runs and nobody has the token
      or a lease that stands: a holder that never comes back holds nobody up for more than 90 s. */
  lemma QueuedOutcomes(s: Sup, inp: Inputs, now: u32, rnd: u32, a: Token, id: u32)
    requires s.phase.Queued? && CommonGate(inp).GateOk? && !(a.has && a.holder == id)
    ensures var o := Tick(s, inp, now, rnd, a, id);
            var grounded := 75 <= inp.sSinceGridAck < 0xFFFF_FFFF && !inp.promoted;
            && (o.event.Yield? <==> grounded && (inp.busy || inp.otherTest))
            && (o.event.Yield? ==> o.sup == s.(phase := Idle, notBefore := Wrap32(now + 30)))
            && (o.event.Yield? ==> o.token == Cancel(a, id))
            && (!grounded ==> o == Outcome(s.(phase := Idle), Cancel(a, id), Nothing))
            && (o.event.Start? <==> GatesOpen(inp) && a.queue != [] && a.queue[0] == id && Reached(now, a.holdUntil)
                                    && (!a.has || Reached(now, a.leaseEnd)))
            && (o.event.Start? ==> o.sup == s.(phase := Warming, startedS := now))
            && (o.event.Start? ==> o.token == Token(a.queue[1..], true, id, Wrap32(now + 90), a.holdUntil))
  {
  }

  /** A disarmed node whose backoff is over draws its jitter at its next tick and asks there
      only if it drew none. */
  lemma JitterIsDrawn(s: Sup, inp: Inputs, at: nat, rnd: u32, a: Token, id: u32)
    requires s.phase.Idle? && !s.armed && GatesOpen(inp) && s.notBefore <= at < UPTIME_S
    requires id !in a.queue && !(a.has && a.holder == id)
    ensures AskedFor(Tick(s, inp, Wrap32(at), rnd, a, id)) <==> rnd % 21 == 0 && |a.queue| < 64
  {
    AsksIff(s, inp, Wrap32(at), rnd, a, id);
    var due := at + rnd % 21;
    assert Wrap32(at) == at && Wrap32(due) == due;
    ReachedInUptime(s.notBefore, due);
    ReachedInUptime(at, due);
    ReachedInUptime(at, s.notBefore);
  }

  /** Where the jitter is drawn anew: after a closed gate, a promotion, a warm-up that was
      lost, yielded or judged, and a restart; not by leaving the line. */
  lemma DisarmedIff(s: Sup, inp: Inputs, now: u32, rnd: u32, a: Token, id: u32)
    requires s.phase.Idle? || s.armed
    ensures var o := Tick(s, inp, now, rnd, a, id);
            o.sup.phase.Idle? ==>
              (!o.sup.armed <==> !CommonGate(inp).GateOk? || s.phase.Warming? || s.phase.Verifying?
                                 || (s.phase.Idle? && inp.promoted))
    ensures !Restart(s, a, id).sup.armed
    ensures s.phase.Warming? ==>
              YieldToOp(s, now, a, id).sup == s.(phase := Idle, armed := false, notBefore := Wrap32(now + 30))
  {
  }

  // ---- asking twice ---------------------------------------------------------

  /** Requests one after the other, and what each was told. */
  function RequestAll(a: Token, ids: seq<u32>): (Token, seq<bool>)
    decreases |ids|
  {
    if ids == [] then (a, [])
    else
      var (b, r) := Request(a, ids[0]);
      var (c, rs) := RequestAll(b, ids[1..]);
      (c, [r] + rs)
  }

  /** Those of them that are neither in line nor hold the token, each once. */
  function Newcomers(a: Token, ids: seq<u32>): seq<u32>
    decreases |ids|
  {
    if ids == [] then []
    else if ids[0] in a.queue || (a.has && a.holder == ids[0]) then Newcomers(a, ids[1..])
    else [ids[0]] + Newcomers(a.(queue := a.queue + [ids[0]]), ids[1..])
  }

  /** However often anyone asks: each newcomer joins the end of the line once, nobody in it
      moves, and everyone is told yes as long as there is room for all. */
  lemma {:induction false} EachJoinsOnce(a: Token, ids: seq<u32>)
    requires |a.queue| + |Newcomers(a, ids)| <= 64
    ensures RequestAll(a, ids).0 == a.(queue := a.queue + Newcomers(a, ids))
    ensures |RequestAll(a, ids).1| == |ids| && forall i :: 0 <= i < |ids| ==> RequestAll(a, ids).1[i]
    decreases |ids|
  {
    if ids == [] {
      assert a.queue + [] == a.queue;
    } else {
      var b := Request(a, ids[0]).0;
      EachJoinsOnce(b, ids[1..]);
      if b != a {
        assert (a.queue + [ids[0]]) + Newcomers(b, ids[1..]) == a.queue + ([ids[0]] + Newcomers(b, ids[1..]));
      }
    }
  }

  // ---- ops put the next grant off -------------------------------------------

  /** An op at a second, putting the next grant off for so long. */
  datatype Op = Op(at: nat, secs: nat)

  function PutOff(a: Token, ops: seq<Op>): Token
    decreases |ops|
  {
    if ops == [] then a else PutOff(HoldOff(a, Wrap32(ops[0].at), Wrap32(ops[0].secs)), ops[1..])
  }

  function LatestEnd(end: nat, ops: seq<Op>): nat
    decreases |ops|
  {
    if ops == [] then end
    else LatestEnd(if ops[0].at + ops[0].secs > end then ops[0].at + ops[0].secs else end, ops[1..])
  }

  /** However many ops in whatever order: the token is put off until the latest end of any,
      never moved forward again, and nothing else of it changes. */
  lemma {:induction false} PutOffUntilLatest(a: Token, ops: seq<Op>)
    requires a.holdUntil < 0x8000_0000 && forall op <- ops :: op.at + op.secs < 0x8000_0000
    ensures PutOff(a, ops) == a.(holdUntil := PutOff(a, ops).holdUntil)
    ensures PutOff(a, ops).holdUntil == LatestEnd(a.holdUntil, ops)
    decreases |ops|
  {
    if ops != [] {
      var end := ops[0].at + ops[0].secs;
      assert ops[0] in ops && forall op <- ops[1..] :: op in ops;
      assert Wrap32(ops[0].at) == ops[0].at && Wrap32(ops[0].secs) == ops[0].secs && Wrap32(end) == end;
      ReachedInUptime(a.holdUntil, end);
      PutOffUntilLatest(HoldOff(a, Wrap32(ops[0].at), Wrap32(ops[0].secs)), ops[1..]);
    }
  }

  // ---- by when it asks ------------------------------------------------------

  lemma ReachedInUptime(now: nat, t: nat)
    requires now < 0x8000_0000 && t < 0x8000_0000
    ensures Wrap32(now) == now && (Reached(now, t) <==> now >= t)
  {
    ReachedIsOrder(now, t);
    assert Wrap32(t) == t && Wrap32(now) == now;
  }

  /** `me` waits for its time: idle, and by `limit` its time has come and it was ticked. */
  ghost predicate Biding(z: Timed, me: u32, limit: int) {
    && TimedInv(z) && me < |z.f.sups| && z.f.sups[me].phase.Idle? && limit < UPTIME_S
    && z.f.sups[me].notBefore + TICK_S <= limit
    && z.tickAt[me] + TICK_S + (if z.f.sups[me].armed then 0 else JITTER_MAX_S + TICK_S) <= limit
  }

  /** As `Open`, with `me` ticked every kTickS while idle too, and room in the line then. */
  ghost predicate Watched(z: Timed, act: Action, at: nat, me: u32)
    requires WellTimed(z)
  {
    && Open(z, act, at, me) && me < |z.f.sups|
    && (z.f.sups[me].phase.Idle? ==> at <= z.tickAt[me] + TICK_S && |z.f.token.queue| < QUEUE_CAP)
  }

  /** A fleet of at most 64 nodes always has room for one more. */
  lemma SmallFleetHasRoom(f: Fleet, me: u32)
    requires Inv(f) && me < |f.sups| <= 64 && !f.sups[me].phase.Queued?
    ensures |f.token.queue| < QUEUE_CAP
  {
    var q := f.token.queue;
    DistinctAppend(q, me);
    Pigeonhole(q + [me], |f.sups|);
  }

  predicate AllBelow(q: seq<u32>, n: nat) {
    forall x <- q :: x < n
  }

  lemma WithoutTheTop(q: seq<u32>, n: u32)
    requires Distinct(q) && AllBelow(q, n + 1)
    ensures Distinct(Remove(q, n)) && AllBelow(Remove(q, n), n)
  {
    RemoveMembers(q, n);
    RemoveKeepsDistinct(q, n);
  }

  /** Distinct numbers below n are at most n. */
  lemma {:induction false} Pigeonhole(q: seq<u32>, n: nat)
    requires Distinct(q) && AllBelow(q, n)
    ensures |q| <= n
    decreases n
  {
    if q != [] {
      assert q[0] in q;
      if n > U32_MOD {
        Pigeonhole(q, n - 1);
      } else {
        WithoutTheTop(q, n - 1);
        Pigeonhole(Remove(q, n - 1), n - 1);
        RemoveLength(q, n - 1);
      }
    }
  }

  lemma {:induction false} RemoveLength(q: seq<u32>, x: u32)
    requires Distinct(q)
    ensures |q| <= |Remove(q, x)| + 1
    decreases |q|
  {
    if q != [] {
      if q[0] == x {
        RemoveFront(q);
      } else {
        RemoveLength(q[1..], x);
      }
    }
  }

  /** Its own tick: it asks, or its time has not come and it is armed. */
  lemma OwnTick(z: Timed, act: Action, at: nat, me: u32, limit: int)
    requires Biding(z, me, limit) && Watched(z, act, at, me) && !act.OpIssued? && act.i == me
    ensures at <= limit
    ensures var y := StepAt(z, act, at);
            || AskedFor(Does(z.f, act, Wrap32(at)))
            || Biding(y, me, limit)
  {
    var s := z.f.sups[me];
    StepKeepsTimedInv(z, act, at);
    assert me !in z.f.token.queue;
    AsksIff(s, act.inp, Wrap32(at), act.rnd, z.f.token, me);
    ArmInUptime(s, at, act.rnd);
    ReachedInUptime(at, Arm(s, Wrap32(at), act.rnd).notBefore);
  }

  lemma ArmInUptime(s: Sup, at: nat, rnd: u32)
    requires at < UPTIME_S && s.notBefore < UPTIME_S
    ensures var t := Arm(s, Wrap32(at), rnd);
            && t.phase == s.phase && t.notBefore < 0x8000_0000
            && (s.armed ==> t == s)
            && (!s.armed ==> s.notBefore <= t.notBefore)
            && (!s.armed ==> t.notBefore <= s.notBefore || t.notBefore <= at + JITTER_MAX_S)
  {
    var due := at + rnd % (JITTER_MAX_S + 1);
    assert Wrap32(at) == at && Wrap32(due) == due;
    ReachedInUptime(s.notBefore, due);
  }

  /** A step of anyone else leaves it where it is. */
  lemma OtherStep(z: Timed, act: Action, at: nat, me: u32, limit: int)
    requires Biding(z, me, limit) && Watched(z, act, at, me) && (act.OpIssued? || act.i != me)
    ensures at <= limit && Biding(StepAt(z, act, at), me, limit)
  {
    StepKeepsTimedInv(z, act, at);
  }

  ghost predicate WatchedRun(z: Timed, run: seq<Moment>, me: u32, y: Timed)
    requires WellTimed(z)
    decreases |run|
  {
    if run == [] then z == y
    else Watched(z, run[0].act, run[0].at, me) && WatchedRun(StepAt(z, run[0].act, run[0].at), run[1..], me, y)
  }

  /** Asking is standing in line at some place, or having started. */
  lemma AskingWaits(z: Timed, act: Action, at: nat, me: u32)
    requires TimedInv(z) && Watched(z, act, at, me) && !act.OpIssued? && act.i == me
    requires AskedFor(Does(z.f, act, Wrap32(at))) && !Starts(z, act, at)
    ensures Waits(StepAt(z, act, at), me)
  {
    StepKeepsTimedInv(z, act, at);
    var y := StepAt(z, act, at);
    assert me in y.f.token.queue;
  }

  lemma PlaceInFleet(z: Timed, me: u32)
    requires Waits(z, me)
    ensures Pos(z.f.token.queue, me) + 1 <= |z.f.sups|
  {
    Pigeonhole(z.f.token.queue, |z.f.sups|);
  }

  lemma BoundInFleet(w: Timed, me: u32, last: int)
    requires Waits(w, me) && w.at + TURN_S * |w.f.sups| <= last
    ensures w.at <= last && Bound(w, me) <= last
  {
    PlaceInFleet(w, me);
    BoundFromNow(w, me);
  }

  /** One tick of its own: started, standing in line, or still biding its time. */
  lemma OwnTickLeads(z: Timed, act: Action, at: nat, me: u32, limit: int)
    requires Biding(z, me, limit) && Watched(z, act, at, me) && !act.OpIssued? && act.i == me
    ensures at <= limit
    ensures Starts(z, act, at) || Waits(StepAt(z, act, at), me) || Biding(StepAt(z, act, at), me, limit)
  {
    OwnTick(z, act, at, me, limit);
    if !Starts(z, act, at) && AskedFor(Does(z.f, act, Wrap32(at))) {
      AskingWaits(z, act, at, me);
    }
  }

  /** What one moment leads to; the step of another changes nothing for `me`. */
  lemma OneMoment(z: Timed, act: Action, at: nat, me: u32, limit: int)
    requires Biding(z, me, limit) && Watched(z, act, at, me)
    ensures at <= limit && StepAt(z, act, at).at == at && |StepAt(z, act, at).f.sups| == |z.f.sups|
    ensures || (Starts(z, act, at) && act.i == me)
            || Waits(StepAt(z, act, at), me) || Biding(StepAt(z, act, at), me, limit)
  {
    if act.OpIssued? || act.i != me {
      OtherStep(z, act, at, me, limit);
    } else {
      OwnTickLeads(z, act, at, me, limit);
    }
  }

  /** On the way: biding its time, or in line with a bound that keeps. */
  ghost predicate Towards(z: Timed, me: u32, limit: int, last: int) {
    && z.at <= last && last == limit + TURN_S * |z.f.sups|
    && (Biding(z, me, limit) || (Waits(z, me) && Bound(z, me) <= last))
  }

  lemma BidingStepTowards(z: Timed, act: Action, at: nat, me: u32, limit: int, last: int)
    requires Towards(z, me, limit, last) && Biding(z, me, limit) && Watched(z, act, at, me)
    ensures || (Starts(z, act, at) && act.i == me && at <= last)
            || Towards(StepAt(z, act, at), me, limit, last)
  {
    OneMoment(z, act, at, me, limit);
    if Waits(StepAt(z, act, at), me) {
      BoundInFleet(StepAt(z, act, at), me, last);
    }
  }

  lemma LineStepTowards(z: Timed, act: Action, at: nat, me: u32, limit: int, last: int)
    requires Towards(z, me, limit, last) && Waits(z, me) && Bound(z, me) <= last && Watched(z, act, at, me)
    ensures || (Starts(z, act, at) && act.i == me && at <= last)
            || Towards(StepAt(z, act, at), me, limit, last)
  {
    OneStepTowards(z, act, at, me, last);
  }

  lemma StepTowards(z: Timed, act: Action, at: nat, me: u32, limit: int, last: int)
    requires Towards(z, me, limit, last) && Watched(z, act, at, me)
    ensures || (Starts(z, act, at) && act.i == me && at <= last)
            || Towards(StepAt(z, act, at), me, limit, last)
  {
    if Biding(z, me, limit) {
      BidingStepTowards(z, act, at, me, limit, last);
    } else {
      LineStepTowards(z, act, at, me, limit, last);
    }
  }

  lemma {:induction false} RunTowards(z: Timed, run: seq<Moment>, me: u32, y: Timed, limit: int, last: int)
    requires WellTimed(z) && Towards(z, me, limit, last) && WatchedRun(z, run, me, y)
    ensures StartsBy(z, run, me, last) || y.at <= last
    decreases |run|
  {
    if run != [] {
      StepTowards(z, run[0].act, run[0].at, me, limit, last);
      if !(Starts(z, run[0].act, run[0].at) && run[0].act.i == me && run[0].at <= last) {
        RunTowards(StepAt(z, run[0].act, run[0].at), run[1..], me, y, limit, last);
      }
    }
  }

  /** When an idle node will have asked, at the latest: its backoff is over, it was ticked,
      and its jitter has passed. */
  function AsksBy(z: Timed, me: u32): int
    requires WellTimed(z) && me < |z.f.sups|
  {
    var soon := z.tickAt[me] + TICK_S + (if z.f.sups[me].armed then 0 else JITTER_MAX_S + TICK_S);
    var due := z.f.sups[me].notBefore + TICK_S;
    var latest := if soon >= due then soon else due;
    if latest >= z.at then latest else z.at
  }

  lemma IdleIsTowards(z: Timed, me: u32, limit: int)
    requires TimedInv(z) && me < |z.f.sups| && z.f.sups[me].phase.Idle? && AsksBy(z, me) < UPTIME_S
    requires limit == AsksBy(z, me) + TURN_S * |z.f.sups|
    ensures Towards(z, me, AsksBy(z, me), limit)
  {
    assert Biding(z, me, AsksBy(z, me));
  }

  /** From idle to started: an idle node whose gates stay open starts within one turn of 69 s
      for each node of the fleet after it asks, however the other nodes behave. */
  lemma StartsFromIdle(z: Timed, run: seq<Moment>, me: u32, y: Timed, limit: int)
    requires TimedInv(z) && me < |z.f.sups| && z.f.sups[me].phase.Idle?
    requires WatchedRun(z, run, me, y) && AsksBy(z, me) < UPTIME_S
    requires limit == AsksBy(z, me) + 69 * |z.f.sups|
    ensures StartsBy(z, run, me, limit) || y.at <= limit
  {
    IdleIsTowards(z, me, limit);
    RunTowards(z, run, me, y, AsksBy(z, me), limit);
  }

  /** A restart forgets the backoff: a node restarted at `at` and ticked promptly asks after
      its jitter alone, whatever failed before. */
  lemma RestartedAsksSoon(z: Timed, me: u32, at: nat)
    requires TimedInv(z) && Prompt(z, Restarts(me), at) && z.tickAt[me] <= at
    ensures var y := StepAt(z, Restarts(me), at);
            && TimedInv(y) && y.f.sups[me].phase.Idle? && AsksBy(y, me) <= at + JITTER_MAX_S + 2 * TICK_S
  {
    StepKeepsTimedInv(z, Restarts(me), at);
  }

  // ---- how a warm-up ends ---------------------------------------------------

  /** One tick of a node whose session is up: when, and what it saw. */
  datatype Look = Look(at: nat, inp: Inputs, rnd: u32)

  /** What a run of ticks reports, up to the first thing there is to report. */
  function Reports(s: Sup, looks: seq<Look>, a: Token, id: u32): (seq<Event>, Sup)
    decreases |looks|
  {
    if looks == [] then ([], s)
    else
      var o := Tick(s, looks[0].inp, Wrap32(looks[0].at), looks[0].rnd, a, id);
      if !o.event.Nothing? then ([o.event], o.sup)
      else
        var (more, t) := Reports(o.sup, looks[1..], o.token, id);
        ([o.event] + more, t)
  }

  predicate Good(look: Look) {
    look.inp.promoted || look.inp.reportOk
  }

  /** How many ticks find nothing yet: no good report, and the 90 s not over. */
  function Waiting(end: nat, looks: seq<Look>): (n: nat)
    ensures n <= |looks|
    ensures n < |looks| ==> Good(looks[n]) || looks[n].at >= end
    ensures forall i :: 0 <= i < n ==> !Good(looks[i]) && looks[i].at < end
    decreases |looks|
  {
    if looks == [] || Good(looks[0]) || looks[0].at >= end then 0 else 1 + Waiting(end, looks[1..])
  }

  ghost predicate Sober(looks: seq<Look>) {
    forall look <- looks :: look.at < UPTIME_S && CommonGate(look.inp).GateOk?
  }

  /** Nothing for n ticks; then, if there is one more, success exactly on a good report, else
      one more failure, and the node is idle again. */
  predicate IsVerdict(s: Sup, looks: seq<Look>, n: nat, events: seq<Event>, t: Sup)
    requires n <= |looks|
  {
    && (forall i :: 0 <= i < n && i < |events| ==> events[i].Nothing?)
    && if n == |looks| then |events| == n && t == s
       else
         && |events| == n + 1 && events[n] == (if Good(looks[n]) then Succeeded else Failed)
         && t.phase.Idle? && !t.armed && t.failures == (if Good(looks[n]) then 0 else Wrap32(s.failures + 1))
  }

  lemma OneLook(s: Sup, done: nat, look: Look, a: Token, id: u32)
    requires s.phase.Verifying? && s.verifyUntil == Wrap32(done + 90) && done < UPTIME_S
    requires look.at < UPTIME_S && CommonGate(look.inp).GateOk?
    ensures var o := Tick(s, look.inp, Wrap32(look.at), look.rnd, a, id);
            if Good(look) then o.event.Succeeded? && o.sup.phase.Idle? && !o.sup.armed && o.sup.failures == 0
            else if look.at < done + 90 then o == Outcome(s, a, Nothing)
            else o.event.Failed? && o.sup.phase.Idle? && !o.sup.armed && o.sup.failures == Wrap32(s.failures + 1)
  {
    ReachedInUptime(look.at, done + 90);
  }

  lemma OneMoreVerdict(s: Sup, looks: seq<Look>, n: nat, events: seq<Event>, t: Sup)
    requires looks != [] && n < |looks| && IsVerdict(s, looks[1..], n, events, t)
    ensures IsVerdict(s, looks, n + 1, [Nothing] + events, t)
  {
  }

  /** A node whose warm-up was over at `done` reports nothing until its first good report or
      until 90 s have passed, and then its verdict. */
  lemma {:induction false} VerdictIs(s: Sup, done: nat, looks: seq<Look>, a: Token, id: u32)
    requires s.phase.Verifying? && s.verifyUntil == Wrap32(done + 90) && done < UPTIME_S && Sober(looks)
    ensures var (events, t) := Reports(s, looks, a, id); IsVerdict(s, looks, Waiting(done + 90, looks), events, t)
    decreases |looks|
  {
    if looks != [] {
      assert looks[0] in looks && forall x <- looks[1..] :: x in looks;
      OneLook(s, done, looks[0], a, id);
      if !Good(looks[0]) && looks[0].at < done + 90 {
        VerdictIs(s, done, looks[1..], a, id);
        var (events, t) := Reports(s, looks[1..], a, id);
        OneMoreVerdict(s, looks, Waiting(done + 90, looks[1..]), events, t);
      }
    }
  }

  /** A node warming under its own lease: it frees the token and starts the 90 s at the first
      tick that finds the warm-up over, and not before. */
  lemma WarmUpEndsIff(s: Sup, look: Look, a: Token, id: u32)
    requires s.phase.Warming? && CommonGate(look.inp).GateOk? && a.has && a.holder == id
    requires !Reached(Wrap32(look.at), a.leaseEnd)
    ensures var o := Tick(s, look.inp, Wrap32(look.at), look.rnd, a, id);
            && o.event.Nothing? && o.token.queue == a.queue
            && (o.token.has <==> look.inp.warmupRunning) && (o.sup.phase.Warming? <==> look.inp.warmupRunning)
            && (!look.inp.warmupRunning ==> o.sup.phase.Verifying? && o.sup.verifyUntil == Wrap32(look.at + 90))
  {
    assert Wrap32(Wrap32(look.at) + 90) == Wrap32(look.at + 90);
  }
}
