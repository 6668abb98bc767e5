/**
 One supervisor over its life: a warm-up never starts before the backoff of the
 last failure, or the hold after the last success, has passed.
 */
module ModeBBackoff {
  import opened Machine
  import opened ModeBSupervisor

  const UPTIME_S: int := 0x8000_0000 - 4000          // 68 years: the wrapped clock has not turned

  /** A supervisor, the earliest second its history allows a start, and how many warm-ups
      failed in a row. */
  datatype Life = Life(s: Sup, at: nat, floor: int, row: nat)

  /** Two, five, fifteen and sixty minutes after the first, second, third and any further
      failure in a row. */
  function PauseS(row: nat): nat {
    if row == 0 then 0 else if row < 4 then [2, 5, 15][row - 1] * 60 else 60 * 60
  }

  lemma BackoffIsPause(row: nat)
    ensures BackoffS(row) == PauseS(row)
  {
  }

  /** Ticks and yields at a true second, with the token in any state whatever. */
  datatype Moment =
    | Ticked(at: nat, inp: Inputs, rnd: u32, a: Token, id: u32)
    | OpForNode(at: nat, a: Token, id: u32)

  function Outcome(l: Life, m: Moment): Outcome {
    match m
    case Ticked(at, inp, rnd, a, id) => Tick(l.s, inp, Wrap32(at), rnd, a, id)
    case OpForNode(at, a, id) => YieldToOp(l.s, Wrap32(at), a, id)
  }

  function Max(x: int, y: int): int {
    if x >= y then x else y
  }

  /** The row ends with a success, or when an idle node is seen promoted. */
  predicate EndsRow(l: Life, m: Moment) {
    Outcome(l, m).event.Succeeded? || (m.Ticked? && l.s.phase.Idle? && CommonGate(m.inp).GateOk? && m.inp.promoted)
  }

  function After(l: Life, m: Moment): Life {
    var o := Outcome(l, m);
    if o.event.Failed? then Life(o.sup, m.at, Max(l.floor, m.at + PauseS(l.row + 1)), l.row + 1)
    else Life(o.sup, m.at, if o.event.Succeeded? then Max(l.floor, m.at + 300) else l.floor,
              if EndsRow(l, m) then 0 else l.row)
  }

  ghost predicate Inv(l: Life) {
    && l.floor <= l.s.notBefore < 0x8000_0000
    && l.row == l.s.failures <= l.s.notBefore
    && (!l.s.phase.Idle? ==> l.s.notBefore <= l.at)
  }

  lemma ReachedWithinUptime(now: nat, t: nat)
    requires now < 0x8000_0000 && t < 0x8000_0000
    ensures Wrap32(now) == now && (Reached(now, t) <==> now >= t)
  {
    ReachedIsOrder(now, t);
    assert Wrap32(t) == t && Wrap32(now) == now;
  }

  lemma ArmOnlyRaises(s: Sup, now: u32, rnd: u32)
    requires now < UPTIME_S && s.notBefore < 0x8000_0000
    ensures s.notBefore <= Arm(s, now, rnd).notBefore < 0x8000_0000
    ensures Arm(s, now, rnd).failures == s.failures && Arm(s, now, rnd).phase == s.phase
  {
    var due := now + rnd % (JITTER_MAX_S + 1);
    assert Wrap32(due) == due;
    ReachedWithinUptime(s.notBefore, due);
  }

  lemma QueuedKeepsFloor(s: Sup, inp: Inputs, now: u32, a: Token, id: u32)
    requires now < UPTIME_S && s.phase.Queued? && s.notBefore <= now
    ensures var o := QueuedTick(s, inp, now, a, id);
            && s.notBefore <= o.sup.notBefore < 0x8000_0000
            && (!o.sup.phase.Idle? ==> o.sup.notBefore <= now)
            && !o.event.Failed? && !o.event.Succeeded?
  {
    assert Wrap32(now + YIELD_RETRY_S) == now + YIELD_RETRY_S;
  }

  lemma IdleKeepsFloor(l: Life, m: Moment)
    requires Inv(l) && l.at <= m.at < UPTIME_S && m.Ticked? && CommonGate(m.inp).GateOk? && l.s.phase.Idle?
    ensures Inv(After(l, m))
    ensures Outcome(l, m).event.Start? ==> m.at >= l.floor
  {
    ReachedWithinUptime(m.at, l.s.notBefore);
    ArmOnlyRaises(l.s, m.at, m.rnd);
    var t := Arm(l.s, m.at, m.rnd);
    ReachedWithinUptime(m.at, t.notBefore);
    if m.at >= t.notBefore {
      QueuedKeepsFloor(t.(phase := Queued), m.inp, m.at, Request(m.a, m.id).0, m.id);
    }
  }

  /** After a verdict the next start is barred for exactly the pause its row asks for. */
  lemma VerdictKeepsFloor(l: Life, m: Moment)
    requires Inv(l) && l.at <= m.at < UPTIME_S && m.Ticked? && CommonGate(m.inp).GateOk? && l.s.phase.Verifying?
    ensures Inv(After(l, m)) && !Outcome(l, m).event.Start?
    ensures Outcome(l, m).event.Failed? ==> After(l, m).s.notBefore == m.at + PauseS(l.row + 1)
    ensures Outcome(l, m).event.Succeeded? ==> After(l, m).s.notBefore == m.at + 300
  {
    var k := l.row + 1;
    ReachedWithinUptime(m.at, l.s.notBefore);
    assert Wrap32(l.s.failures + 1) == k;
    BackoffIsPause(k);
    assert Wrap32(m.at + PauseS(k)) == m.at + PauseS(k);
    assert Wrap32(m.at + REARM_HOLD_S) == m.at + REARM_HOLD_S;
  }

  lemma StepKeepsFloor(l: Life, m: Moment)
    requires Inv(l) && l.at <= m.at < UPTIME_S
    ensures Inv(After(l, m))
    ensures Outcome(l, m).event.Start? ==> m.at >= l.floor
  {
    ReachedWithinUptime(m.at, l.s.notBefore);
    assert Wrap32(m.at + YIELD_RETRY_S) == m.at + YIELD_RETRY_S;
    if m.Ticked? && CommonGate(m.inp).GateOk? {
      match l.s.phase
      case Idle => IdleKeepsFloor(l, m);
      case Queued => QueuedKeepsFloor(l.s, m.inp, m.at, m.a, m.id);
      case Warming =>
      case Verifying => VerdictKeepsFloor(l, m);
    }
  }

  ghost predicate InOrder(at: nat, life: seq<Moment>)
    decreases |life|
  {
    life == [] || (at <= life[0].at < UPTIME_S && InOrder(life[0].at, life[1..]))
  }

  ghost predicate BackoffKept(l: Life, life: seq<Moment>)
    decreases |life|
  {
    life == [] ||
    ((Outcome(l, life[0]).event.Start? ==> life[0].at >= l.floor) && BackoffKept(After(l, life[0]), life[1..]))
  }

  lemma {:induction false} LifeKeepsBackoff(l: Life, life: seq<Moment>)
    requires Inv(l) && InOrder(l.at, life)
    ensures BackoffKept(l, life)
    decreases |life|
  {
    if life != [] {
      StepKeepsFloor(l, life[0]);
      LifeKeepsBackoff(After(l, life[0]), life[1..]);
    }
  }

  /** From boot, without a restart: every Start follows the first, second, third and any
      further failure in a row by at least 2, 5, 15 and 60 minutes and a success by at least
      5 minutes. */
  lemma EveryStartKeepsTheBackoff(at: nat, life: seq<Moment>)
    requires InOrder(at, life)
    ensures BackoffKept(Life(FRESH, at, 0, 0), life)
  {
    LifeKeepsBackoff(Life(FRESH, at, 0, 0), life);
  }
}
