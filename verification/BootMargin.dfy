/**
 The downlink counter across node boots: the hub's rule for advancing its counter
 (ModeBSupervisor.h, lora_client.cpp) against the margin the node's restore adds.
 */
module BootMargin {
  import opened Machine
  import opened Sequencer

  const WAKE_BOOT: u32 := 0
  const WAKE_MODE_CHANGED: u32 := 5
  const RESET_DEEP_SLEEP: u32 := 8
  const BOOT_MARGIN: int := 16
  const MIN_GAP_S: int := 20
  const NEVER_S: u32 := 0xFFFF_FFFF

  datatype Beacon = Beacon(wake: u32, reset: u32, resumed: bool, prevFcnt: u32)

  // ---- the hub's side -------------------------------------------------------

  function BootAdvancesTx(b: Beacon, resetChanged: bool, newWake: bool, sinceAdvanceS: u32): bool {
    if sinceAdvanceS < MIN_GAP_S then false
    else if b.reset == RESET_DEEP_SLEEP then b.resumed && newWake
    else resetChanged || b.wake == WAKE_BOOT || b.wake == WAKE_MODE_CHANGED
  }

  /** Whole seconds since an instant; 0 stands for never. The timer never runs back. */
  function SinceS(t: nat, now: nat): u32
    requires t <= now
  {
    if t == 0 then NEVER_S else Wrap32((now - t) / 1000000)
  }

  /** Both counters set without a write, and counted as persisted. */
  function CountersNoWrite(s: State, tx: u32, rx: u32): State {
    Restore(s, Snapshot(Wrap32(tx - 1), Wrap32(rx - 1)))
  }

  datatype Hub = Hub(s: State, lastReset: u32, lastAdvanceUs: nat, lastWakeKey: u32)

  function FreshHub(s: State): Hub {
    Hub(s, 0xFFFF_FFFF, 0, 0)
  }

  predicate Notes(h: Hub, b: Beacon, now: nat)
    requires h.lastAdvanceUs <= now
  {
    BootAdvancesTx(b, b.reset != h.lastReset, b.prevFcnt != h.lastWakeKey, SinceS(h.lastAdvanceUs, now))
  }

  function NoteReset(h: Hub, b: Beacon, now: nat): Hub
    requires h.lastAdvanceUs <= now
  {
    if Notes(h, b, now) then
      Hub(CountersNoWrite(h.s, Wrap32(h.s.tx + BOOT_MARGIN), h.s.rx), b.reset, if now > 0 then now else 1, b.prevFcnt)
    else h.(lastReset := b.reset)
  }

  class Listener {
    const counters: Sequencer
    var lastReset: u32
    var lastAdvanceUs: nat
    var lastWakeKey: u32

    ghost function Value(): Hub
      reads this, counters
    {
      Hub(counters.Value(), lastReset, lastAdvanceUs, lastWakeKey)
    }

    constructor (counters: Sequencer)
      ensures this.counters == counters && Value() == FreshHub(counters.Value())
    {
      this.counters := counters;
      lastReset, lastAdvanceUs, lastWakeKey := 0xFFFF_FFFF, 0, 0;
    }

    method NoteNodeReset(b: Beacon, now: nat) returns (changed: bool)
      requires lastAdvanceUs <= now
      modifies this, counters
      ensures Value() == NoteReset(old(Value()), b, now)
      ensures changed == (b.reset != old(lastReset))
    {
      changed := b.reset != lastReset;
      lastReset := b.reset;
      if BootAdvancesTx(b, changed, b.prevFcnt != lastWakeKey, SinceS(lastAdvanceUs, now)) {
        AdvanceForBoot(b, now);
      }
    }

    method AdvanceForBoot(b: Beacon, now: nat)
      modifies this`lastAdvanceUs, this`lastWakeKey, counters
      ensures Value() == Hub(CountersNoWrite(old(counters.Value()), Wrap32(old(counters.tx) + BOOT_MARGIN),
                                             old(counters.rx)),
                             lastReset, if now > 0 then now else 1, b.prevFcnt)
    {
      lastAdvanceUs := if now > 0 then now else 1;
      lastWakeKey := b.prevFcnt;
      counters.Install(Snapshot(Wrap32(Wrap32(counters.tx + BOOT_MARGIN) - 1), Wrap32(counters.rx - 1)));
    }
  }

  // ---- both ends ------------------------------------------------------------

  /** One session of a hub and a node: their counters, what each has in flash, how many
      boots of the node no beacon has told the hub of, and how many advances of the hub
      its flash does not hold yet. */
  datatype Link = Link(hub: Hub, node: State, hubFlash: Snapshot, nodeFlash: Snapshot, unnoted: nat, unwritten: nat)

  datatype Event =
    | NodeBoot(writeBack: bool)
    | Heard(b: Beacon, now: nat)                         // a beacon arrives
    | Send(lands: bool)                                  // the hub allocates a downlink id
    | Delivered(fcnt: u32, nowUs: int, lands: bool)      // some sent id reaches the node
    | HubBoot

  function Sending(l: Link, lands: bool): Link {
    var (s, a) := Allocate(l.hub.s, HookFor(lands, Wrap32(l.hub.s.tx + 1), l.hub.s.rx));
    if a.status.Ok? then l.(hub := l.hub.(s := s), hubFlash := Snapshot(s.tx, s.rx), unwritten := 0)
    else l.(hub := l.hub.(s := s))
  }

  function Receiving(l: Link, fcnt: u32, nowUs: int, lands: bool): Link {
    var h := HookFor(lands, l.node.tx, fcnt);
    var (s, v) := Commit(l.node, fcnt, nowUs, h, h);
    var written := v.Advanced? && s.persistedRx == fcnt && lands;
    l.(node := s, nodeFlash := if written then Snapshot(s.tx, s.rx) else l.nodeFlash)
  }

  function Step(l: Link, e: Event): Link
    requires e.Heard? ==> l.hub.lastAdvanceUs <= e.now
  {
    match e
    case NodeBoot(writeBack) =>
      var s := Restore(l.node, l.nodeFlash);
      l.(node := s, nodeFlash := if writeBack then Snapshot(s.tx, s.rx) else l.nodeFlash, unnoted := l.unnoted + 1)
    case Heard(b, now) =>
      if Notes(l.hub, b, now) then
        l.(hub := NoteReset(l.hub, b, now), unnoted := if l.unnoted > 0 then l.unnoted - 1 else 0,
           unwritten := l.unwritten + 1)
      else l.(hub := NoteReset(l.hub, b, now))
    case Send(lands) => Sending(l, lands)
    case Delivered(fcnt, nowUs, lands) => Receiving(l, fcnt, nowUs, lands)
    case HubBoot =>
      l.(hub := FreshHub(CountersNoWrite(l.hub.s, l.hubFlash.tx, l.hubFlash.rx)),
         unnoted := l.unnoted + l.unwritten, unwritten := 0)
  }

  /** Only ids the hub has handed out are delivered (it writes an id before handing it
      out), time does not run back, and no counter passes 2^32. */
  predicate Enabled(l: Link, e: Event) {
    match e
    case NodeBoot(_) => l.nodeFlash.rx + BOOT_MARGIN < U32_MOD
    case Heard(_, now) => l.hub.lastAdvanceUs <= now && l.hub.s.tx + BOOT_MARGIN < U32_MOD
    case Delivered(fcnt, _, _) => fcnt <= l.hubFlash.tx && fcnt < FCNT_LIMIT
    case _ => true
  }

  predicate InStep(l: Link) {
    && l.hub.s.cfg == HUB_CONFIG && l.node.cfg == NODE_CONFIG
    && l.hub.s.persistedTx == l.hub.s.tx
    && l.hub.s.tx == l.hubFlash.tx + BOOT_MARGIN * l.unwritten
    && l.nodeFlash.rx <= l.node.rx <= l.hub.s.tx + BOOT_MARGIN * l.unnoted
  }

  lemma SkipIsExact(s: State, tx: u32, rx: u32)
    requires s.cfg == HUB_CONFIG
    ensures CountersNoWrite(s, tx, rx).tx == tx == CountersNoWrite(s, tx, rx).persistedTx
    ensures CountersNoWrite(s, tx, rx).rx == rx
  {
    assert Wrap32(Wrap32(tx - 1) + 1) == tx by {
      if tx == 0 { assert Wrap32(tx - 1) == U32_MOD - 1; }
    }
    assert Wrap32(Wrap32(rx - 1) + 1) == rx by {
      if rx == 0 { assert Wrap32(rx - 1) == U32_MOD - 1; }
    }
  }

  lemma HeardKeepsInStep(l: Link, b: Beacon, now: nat)
    requires InStep(l) && Enabled(l, Heard(b, now))
    ensures InStep(Step(l, Heard(b, now)))
  {
    SkipIsExact(l.hub.s, Wrap32(l.hub.s.tx + BOOT_MARGIN), l.hub.s.rx);
  }

  lemma SendKeepsInStep(l: Link, lands: bool)
    requires InStep(l)
    ensures InStep(Step(l, Send(lands)))
  {
  }

  lemma DeliveredKeepsInStep(l: Link, fcnt: u32, nowUs: int, lands: bool)
    requires InStep(l) && Enabled(l, Delivered(fcnt, nowUs, lands))
    ensures InStep(Step(l, Delivered(fcnt, nowUs, lands)))
  {
  }

  /** One step of any kind, whatever fails in it: the hub's counter plus 16 for each boot
      not yet noted stays at or above the node's mark. */
  lemma StepKeepsInStep(l: Link, e: Event)
    requires InStep(l) && Enabled(l, e)
    ensures InStep(Step(l, e))
  {
    match e
    case NodeBoot(_) =>
    case Heard(b, now) => HeardKeepsInStep(l, b, now);
    case Send(lands) => SendKeepsInStep(l, lands);
    case Delivered(fcnt, nowUs, lands) => DeliveredKeepsInStep(l, fcnt, nowUs, lands);
    case HubBoot => SkipIsExact(l.hub.s, l.hubFlash.tx, l.hubFlash.rx);
  }

  /** What the node's flash holds is what it counts as persisted, after any step but a boot
      that does not write back. */
  lemma FlashIsPersisted(l: Link, e: Event)
    requires InStep(l) && Enabled(l, e) && l.node.persistedRx == l.nodeFlash.rx && (e.NodeBoot? ==> e.writeBack)
    ensures Step(l, e).node.persistedRx == Step(l, e).nodeFlash.rx
  {
  }

  /** With every boot noted the node hears the hub's next downlink exactly while the
      gap between the counters is under 1024. */
  lemma NextDownlinkIsHeard(l: Link)
    requires InStep(l) && l.unnoted == 0 && l.hub.s.tx < FCNT_LIMIT - 1
    ensures var n := Step(l, Send(true));
            && n.hub.s.tx == l.hub.s.tx + 1
            && (Check(n.node, n.hub.s.tx) <==> l.hub.s.tx - l.node.rx < FORWARD_WINDOW)
  {
    assert Wrap32(l.node.rx + FORWARD_WINDOW) == l.node.rx + FORWARD_WINDOW;
  }

  // ---- whole runs -----------------------------------------------------------

  /** A beacon only a boot sends: a fresh reset reason, a boot or mode change, or the
      first beacon of a resumed wake from deep sleep. */
  predicate TellsOfBoot(h: Hub, b: Beacon) {
    if b.reset == RESET_DEEP_SLEEP then b.resumed && b.prevFcnt != h.lastWakeKey
    else b.reset != h.lastReset || b.wake == WAKE_BOOT || b.wake == WAKE_MODE_CHANGED
  }

  /** Exactly which beacons are noted: those that tell of a boot, 20 s or more after the last
      advance. */
  lemma NotedIffTold(h: Hub, b: Beacon, now: nat)
    requires h.lastAdvanceUs <= now
    ensures Notes(h, b, now)
       <==> TellsOfBoot(h, b) && (h.lastAdvanceUs == 0 || Wrap32((now - h.lastAdvanceUs) / 1000000) >= 20)
  {
  }

  /** After a hub boot the first beacon of a node that did not wake from deep sleep is noted,
      whatever its reason. */
  lemma FirstBeaconIsNoted(s: State, b: Beacon, now: nat)
    requires b.reset != RESET_DEEP_SLEEP && b.reset != 0xFFFF_FFFF
    ensures Notes(FreshHub(s), b, now)
  {
  }

  /** Whatever it tells, no second beacon is noted within 20 s of a noted one, the very first
      instant included. */
  lemma NotTwiceInside20s(h: Hub, b: Beacon, now: nat, c: Beacon, later: nat)
    requires h.lastAdvanceUs <= now && Notes(h, b, now)
    requires NoteReset(h, b, now).lastAdvanceUs <= later < now + 20000000
    ensures !Notes(NoteReset(h, b, now), c, later)
  {
    var since := later - NoteReset(h, b, now).lastAdvanceUs;
    assert since / 1000000 < 20 && Wrap32(since / 1000000) == since / 1000000;
  }

  /** One beacon with the instant it is heard. */
  datatype Hearing = Hearing(b: Beacon, now: nat)

  /** Beacons of one wake after its first: the same reset reason, neither a boot nor a mode
      change, and in deep sleep the wake already noted, or one that did not resume. */
  predicate Ordinary(h: Hub, b: Beacon) {
    && b.reset == h.lastReset
    && if b.reset == RESET_DEEP_SLEEP then !b.resumed || b.prevFcnt == h.lastWakeKey
       else b.wake != WAKE_BOOT && b.wake != WAKE_MODE_CHANGED
  }

  ghost predicate Hears(h: Hub, heard: seq<Hearing>, g: Hub)
    decreases |heard|
  {
    if heard == [] then h == g
    else h.lastAdvanceUs <= heard[0].now && Hears(NoteReset(h, heard[0].b, heard[0].now), heard[1..], g)
  }

  /** A wake advances the counter once: any number of its further beacons, at any times, leave
      the hub exactly as it was. */
  lemma {:induction false} OrdinaryBeaconsAreFree(h: Hub, heard: seq<Hearing>, g: Hub)
    requires Hears(h, heard, g) && forall x <- heard :: Ordinary(h, x.b)
    ensures g == h
    decreases |heard|
  {
    if heard != [] {
      assert heard[0] in heard && forall x <- heard[1..] :: x in heard;
      NotedIffTold(h, heard[0].b, heard[0].now);
      OrdinaryBeaconsAreFree(h, heard[1..], g);
    }
  }

  /** Each boot is told by its own beacon, at least 20 s after the last advance, before
      the next boot of either end. */
  predicate Paced(l: Link, e: Event) {
    match e
    case NodeBoot(_) => l.unnoted == 0
    case Heard(b, now) => l.unnoted > 0 ==> l.hub.lastAdvanceUs <= now && TellsOfBoot(l.hub, b)
                                            && SinceS(l.hub.lastAdvanceUs, now) >= MIN_GAP_S
    case HubBoot => l.unwritten == 0
    case _ => true
  }

  predicate RunOk(l: Link, run: seq<Event>, paced: bool)
    decreases |run|
  {
    run == [] || (Enabled(l, run[0]) && (paced ==> Paced(l, run[0])) && RunOk(Step(l, run[0]), run[1..], paced))
  }

  function Final(l: Link, run: seq<Event>, paced: bool): Link
    requires RunOk(l, run, paced)
    decreases |run|
  {
    if run == [] then l else Final(Step(l, run[0]), run[1..], paced)
  }

  /** Any run at all: boots of both ends at any moment, lost writes, beacons that note a
      boot twice or not at all. */
  lemma {:induction false} CountersStayInStep(l: Link, run: seq<Event>, paced: bool)
    requires InStep(l) && RunOk(l, run, paced)
    ensures InStep(Final(l, run, paced))
    decreases |run|
  {
    if run != [] {
      StepKeepsInStep(l, run[0]);
      CountersStayInStep(Step(l, run[0]), run[1..], paced);
    }
  }

  lemma {:induction false} AtMostOneUnnoted(l: Link, run: seq<Event>)
    requires l.unnoted <= 1 && RunOk(l, run, true)
    ensures Final(l, run, true).unnoted <= 1
    decreases |run|
  {
    if run != [] {
      AtMostOneUnnoted(Step(l, run[0]), run[1..]);
    }
  }

  /** A paced run, after any beacon: the next downlink passes the node's check exactly
      while the gap is under 1024. */
  lemma HeardAfterEveryBeacon(l: Link, run: seq<Event>, b: Beacon, now: nat)
    requires InStep(l) && l.unnoted <= 1 && RunOk(l, run, true)
    requires Enabled(Final(l, run, true), Heard(b, now)) && Paced(Final(l, run, true), Heard(b, now))
    requires Step(Final(l, run, true), Heard(b, now)).hub.s.tx < FCNT_LIMIT - 1
    ensures var m := Step(Final(l, run, true), Heard(b, now));
            && m.unnoted == 0
            && (Check(m.node, Step(m, Send(true)).hub.s.tx) <==> m.hub.s.tx - m.node.rx < FORWARD_WINDOW)
  {
    CountersStayInStep(l, run, true);
    AtMostOneUnnoted(l, run);
    var f := Final(l, run, true);
    HeardKeepsInStep(f, b, now);
    NextDownlinkIsHeard(Step(f, Heard(b, now)));
  }

  // ---- exactly when the node is deaf ----------------------------------------

  /** Hub and node at one mark, both of it in flash: nothing is owed to either side. */
  predicate Lockstep(l: Link) {
    InStep(l) && l.unnoted == 0 && l.node.rx == l.nodeFlash.rx == l.hub.s.tx
  }

  /** The node hears the hub's next downlink, whose id is written before it is sent. */
  predicate HearsNext(l: Link) {
    Check(l.node, Step(l, Send(true)).hub.s.tx)
  }

  lemma SendOne(l: Link)
    requires l.hub.s.cfg == HUB_CONFIG && l.hub.s.persistedTx == l.hub.s.tx < FCNT_LIMIT - 1
    ensures Step(l, Send(true)).hub.s.tx == l.hub.s.tx + 1 && Step(l, Send(true)).node == l.node
  {
  }

  /** A node that has booted and heard nothing since hears exactly what lies above its
      mark, at most 1024 ahead. */
  lemma BootedNodeHearsIff(l: Link)
    requires InStep(l) && l.node.seen == Ones64() && l.hub.s.tx < FCNT_LIMIT - 1
    requires l.node.rx + FORWARD_WINDOW < U32_MOD
    ensures HearsNext(l) <==> l.node.rx <= l.hub.s.tx < l.node.rx + FORWARD_WINDOW
  {
    SendOne(l);
    assert Wrap32(l.node.rx + FORWARD_WINDOW) == l.node.rx + FORWARD_WINDOW;
    if l.hub.s.tx < l.node.rx {
      assert Wrap32(l.node.rx - (l.hub.s.tx + 1)) == l.node.rx - (l.hub.s.tx + 1);
    }
  }

  lemma HearsFromBelow(l: Link)
    requires InStep(l) && l.node.rx <= l.hub.s.tx < FCNT_LIMIT - 1
    ensures HearsNext(l) <==> l.hub.s.tx < l.node.rx + FORWARD_WINDOW
  {
    SendOne(l);
    assert Wrap32(l.node.rx + FORWARD_WINDOW) == l.node.rx + FORWARD_WINDOW;
  }

  lemma BootFromLockstep(l: Link, b: Beacon, now: nat)
    requires Lockstep(l) && l.hub.s.tx < FCNT_LIMIT - 32 && l.hub.lastAdvanceUs <= now
    ensures var m := Step(Step(l, NodeBoot(true)), Heard(b, now));
            && InStep(m) && m.node.seen == Ones64() && m.node.rx == m.nodeFlash.rx == l.hub.s.tx + BOOT_MARGIN
            && m.hub.s.tx == l.hub.s.tx + (if Notes(l.hub, b, now) then BOOT_MARGIN else 0)
            && m.unnoted == (if Notes(l.hub, b, now) then 0 else 1)
            && m.unwritten == l.unwritten + (if Notes(l.hub, b, now) then 1 else 0)
            && m.hub == NoteReset(l.hub, b, now) && m.hubFlash == l.hubFlash
  {
    var n := Step(l, NodeBoot(true));
    StepKeepsInStep(l, NodeBoot(true));
    HeardKeepsInStep(n, b, now);
    SkipIsExact(n.hub.s, Wrap32(n.hub.s.tx + BOOT_MARGIN), n.hub.s.rx);
  }

  /** One boot from lockstep: the next downlink is heard if and only if the hub notes
      the beacon. */
  lemma BootHeardIffNoted(l: Link, b: Beacon, now: nat)
    requires Lockstep(l) && l.hub.s.tx < FCNT_LIMIT - 32 && l.hub.lastAdvanceUs <= now
    ensures HearsNext(Step(Step(l, NodeBoot(true)), Heard(b, now))) <==> Notes(l.hub, b, now)
  {
    BootFromLockstep(l, b, now);
    BootedNodeHearsIff(Step(Step(l, NodeBoot(true)), Heard(b, now)));
  }

  /** Two boots noted within 20 s count once, whatever came before: the node then drops
      the hub's next 16 downlinks. */
  lemma QuickBootsDeafen(l: Link, b: Beacon, now: nat, later: nat, f: u32)
    requires Lockstep(l) && l.hub.s.tx < FCNT_LIMIT - 64 && l.hub.lastAdvanceUs <= now && Notes(l.hub, b, now)
    requires 0 < now <= later < now + 20000000
    ensures var once := Step(Step(l, NodeBoot(true)), Heard(b, now));
            var twice := Step(Step(once, NodeBoot(true)), Heard(b, later));
            && twice.unnoted == 1 && twice.hub.s.tx == l.hub.s.tx + 16 && twice.node.rx == l.hub.s.tx + 32
            && (twice.hub.s.tx < f <= twice.hub.s.tx + 16 ==> !Check(twice.node, f))
  {
    BootFromLockstep(l, b, now);
    var once := Step(Step(l, NodeBoot(true)), Heard(b, now));
    assert (later - now) / 1000000 < 20;
    BootFromLockstep(once, b, later);
    RestoreBurnsTheWindow(once.node, once.nodeFlash, f);
  }

  /** A hub restart with nothing unwritten loses nothing: the next downlink is heard
      exactly while the gap is under 1024. */
  lemma HubRestartIsHarmless(l: Link)
    requires InStep(l) && l.unnoted == 0 && l.unwritten == 0 && l.hub.s.tx < FCNT_LIMIT - 1
    ensures HearsNext(Step(l, HubBoot)) <==> l.hub.s.tx - l.node.rx < FORWARD_WINDOW
  {
    StepKeepsInStep(l, HubBoot);
    SkipIsExact(l.hub.s, l.hubFlash.tx, l.hubFlash.rx);
    NextDownlinkIsHeard(Step(l, HubBoot));
  }

  /** A node booted and caught up with, then a hub restart: its next downlink is heard if
      and only if every advance had been written by a downlink since. */
  lemma HubRestartHeardIffWritten(l: Link)
    requires Lockstep(l) && l.node.seen == Ones64() && l.hub.s.tx < FCNT_LIMIT - 1
    ensures HearsNext(Step(l, HubBoot)) <==> l.unwritten == 0
  {
    StepKeepsInStep(l, HubBoot);
    SkipIsExact(l.hub.s, l.hubFlash.tx, l.hubFlash.rx);
    BootedNodeHearsIff(Step(l, HubBoot));
  }

  /** In particular an advance is lost by a hub restart before the next downlink. */
  lemma LostAdvanceDeafens(l: Link, b: Beacon, now: nat)
    requires Lockstep(l) && l.hub.s.tx < FCNT_LIMIT - 32 && l.hub.lastAdvanceUs <= now && Notes(l.hub, b, now)
    ensures var m := Step(Step(l, NodeBoot(true)), Heard(b, now));
            HearsNext(m) && !HearsNext(Step(m, HubBoot))
  {
    BootHeardIffNoted(l, b, now);
    BootFromLockstep(l, b, now);
    HubRestartHeardIffWritten(Step(Step(l, NodeBoot(true)), Heard(b, now)));
  }

  // ---- exactly when, over whole runs ----------------------------------------

  /** Boots of either end and beacons, with no downlink in between. */
  predicate Silent(e: Event) {
    (e.NodeBoot? && e.writeBack) || e.Heard? || e.HubBoot?
  }

  function Boots(run: seq<Event>): nat
    decreases |run|
  {
    if run == [] then 0 else (if run[0].NodeBoot? then 1 else 0) + Boots(run[1..])
  }

  /** Advances the hub still knows at the end: those since its own last restart, or n
      and all of the run's when it did not restart. */
  function Kept(l: Link, run: seq<Event>, n: nat): nat
    requires RunOk(l, run, false)
    decreases |run|
  {
    if run == [] then n
    else Kept(Step(l, run[0]), run[1..],
              if run[0].HubBoot? then 0
              else if run[0].Heard? && Notes(l.hub, run[0].b, run[0].now) then n + 1
              else n)
  }

  predicate NearlySpent(l: Link) {
    l.hub.s.tx >= FCNT_LIMIT - 1 || l.node.rx + FORWARD_WINDOW >= U32_MOD
  }

  lemma SilentStep(l: Link, e: Event)
    requires InStep(l) && Enabled(l, e) && Silent(e) && l.nodeFlash.rx == l.node.rx
    ensures var n := Step(l, e);
            && InStep(n) && n.nodeFlash.rx == n.node.rx && n.hubFlash.tx == l.hubFlash.tx
            && n.node.rx == l.node.rx + (if e.NodeBoot? then BOOT_MARGIN else 0)
            && (n.node.seen == Ones64() || (!e.NodeBoot? && n.node == l.node))
            && n.unwritten == (if e.HubBoot? then 0
                               else if e.Heard? && Notes(l.hub, e.b, e.now) then l.unwritten + 1
                               else l.unwritten)
  {
    StepKeepsInStep(l, e);
  }

  lemma {:induction false} SilentRun(l: Link, run: seq<Event>)
    requires InStep(l) && RunOk(l, run, false) && (forall e <- run :: Silent(e)) && l.nodeFlash.rx == l.node.rx
    ensures var m := Final(l, run, false);
            && InStep(m) && m.node.rx == l.node.rx + BOOT_MARGIN * Boots(run)
            && m.hubFlash.tx == l.hubFlash.tx && m.unwritten == Kept(l, run, l.unwritten)
            && (m.node.seen == Ones64() || (Boots(run) == 0 && m.node == l.node))
    decreases |run|
  {
    if run != [] {
      assert run[0] in run && forall e <- run[1..] :: e in run;
      SilentStep(l, run[0]);
      SilentRun(Step(l, run[0]), run[1..]);
    }
  }

  /** From lockstep, after any number of boots of both ends and any beacons at any
      moments: the next downlink is heard if and only if the hub still knows at least as
      many advances as the node booted, and fewer than 64 more. */
  lemma HeardAfterSilenceIff(l: Link, run: seq<Event>)
    requires Lockstep(l) && l.unwritten == 0 && RunOk(l, run, false) && forall e <- run :: Silent(e)
    requires !NearlySpent(Final(l, run, false))
    ensures HearsNext(Final(l, run, false)) <==> Boots(run) <= Kept(l, run, 0) < Boots(run) + 64
  {
    SilentRun(l, run);
    var m := Final(l, run, false);
    if m.node.seen == Ones64() {
      BootedNodeHearsIff(m);
    } else {
      HearsFromBelow(m);
    }
  }
}
