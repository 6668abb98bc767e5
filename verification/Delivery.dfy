/**
 A hub, a node that reboots, and a channel that loses, repeats and reorders
 frames, put together from the sequencer, the ack cache and the timeout ladder.

 The channel is the set of all frames ever sent: a frame in it may be delivered
 any number of times, at any moment and in any order, or never. A frame is
 authentic only under the session (key pair) it was sealed in.
 */
module Delivery {
  import opened Machine
  import opened Sequencer
  import Runs = SequencerRuns
  import Acks = AckCache
  import Policy = DeliveryPolicy

  type Command = int

  datatype Frame = Frame(session: nat, id: Fcnt, cmd: Command)
  /** A command the node ran, and when (its own clock). */
  datatype Ran = Ran(frame: Frame, atUs: int)
  datatype Ack = Ack(session: nat, id: Fcnt, atUs: int, again: bool)

  /** The hub's one command in flight: its stored bytes and counted retries. */
  datatype Slot = NoCommand | InFlight(frame: Frame, spent: u8)

  datatype System = System(
    hubSession: nat,
    hub: State,
    slot: Slot,
    delivered: seq<Frame>,       // commands the hub has marked acknowledged
    air: set<Frame>,
    nodeSession: nat,
    node: Runs.World,
    cache: Acks.Cache,
    ran: seq<Ran>,
    acks: seq<Ack>)

  datatype Event =
    | Issue(cmd: Command)                                  // a new command takes the slot
    | Expire(reloginPending: bool, shortWait: bool)        // the ack timer of the slot
    | HearAck(ack: Ack)
    | SkipIds(n: nat)                                      // boot margin, reserved blocks
    | HubLogin                                             // a fresh challenge: new keys, counters restart
    | NodeLogin                                            // the node adopts the hub's session
    | NodeFlash(e: Runs.Event)                             // node allocations and snapshot writes
    | NodeReboot
    | Deliver(frame: Frame, nowUs: int, lands: bool)

  function Start(): System {
    System(0, Initial(HUB_CONFIG), NoCommand, [], {}, 0, Runs.Boot(NODE_CONFIG), Acks.Cleared(), [], [])
  }

  /** The hub persists every id before using it. */
  function HubAllocate(hub: State): (State, Alloc) {
    Allocate(hub, HookFor(true, Wrap32(hub.tx + 1), hub.rx))
  }

  predicate Enabled(y: System, e: Event) {
    match e
    case HearAck(ack) => ack in y.acks
    case SkipIds(n) => y.hub.tx + n < FCNT_LIMIT
    case NodeLogin => y.nodeSession < y.hubSession
    case NodeFlash(e) => (e.Allocation? || e.BeginWrite? || e.LandWrite? || e.LoseWrite?) && Runs.Enabled(y.node, e)
    case Deliver(frame, nowUs, lands) =>
      frame in y.air && 0 <= nowUs && Runs.Enabled(y.node, Runs.Reception(frame.id, nowUs, lands))
    case _ => true
  }

  /** The sequencer's premises on the node's flash (see SequencerRuns.Guarded). */
  predicate Guarded(y: System, e: Event)
    requires Enabled(y, e)
  {
    match e
    case NodeFlash(e) => Runs.Guarded(y.node, e)
    case NodeReboot => Runs.Guarded(y.node, Runs.Crash(true))
    case Deliver(frame, nowUs, lands) => Runs.Guarded(y.node, Runs.Reception(frame.id, nowUs, lands))
    case _ => true
  }

  function Issuing(y: System, cmd: Command): System {
    var (hub, a) := HubAllocate(y.hub);
    if a.status.Ok? then
      var f := Frame(y.hubSession, a.fcnt, cmd);
      y.(hub := hub, slot := InFlight(f, 0), air := y.air + {f})
    else y.(hub := hub)
  }

  function Expiring(y: System, reloginPending: bool, shortWait: bool): System {
    match y.slot
    case NoCommand => y
    case InFlight(f, spent) =>
      var d := Policy.OnAckTimeout(
        Policy.TimeoutState(true, reloginPending, shortWait, spent, Policy.CONTROL_MAX_RETRIES));
      match d.action
      case GiveUp => y.(slot := NoCommand)
      case Retransmit => y.(slot := InFlight(f, d.spent), air := y.air + {f})
      case ShortWaitMissed => y.(slot := InFlight(f, d.spent), air := y.air + {f})
      case _ => y.(slot := InFlight(f, d.spent))
  }

  function Hearing(y: System, ack: Ack): System {
    if y.slot.InFlight? && ack.session == y.slot.frame.session && ack.id == y.slot.frame.id
    then y.(slot := NoCommand, delivered := y.delivered + [y.slot.frame])
    else y
  }

  /** An authentic frame: run it if the window admits it, else perhaps ack again. */
  function Delivering(y: System, f: Frame, nowUs: int, lands: bool): System {
    if f.session != y.nodeSession then y
    else if Check(y.node.s, f.id) then
      y.(node := Runs.Receiving(y.node, f.id, nowUs, lands),
         cache := Acks.Note(y.cache, f.id, nowUs),
         ran := y.ran + [Ran(f, nowUs)],
         acks := y.acks + [Ack(f.session, f.id, nowUs, false)])
    else if Acks.Classify(y.cache, f.id, nowUs).ReAck? then
      y.(cache := Acks.NoteReAck(y.cache, f.id, nowUs),
         acks := y.acks + [Ack(f.session, f.id, nowUs, true)])
    else y
  }

  function Step(y: System, e: Event): System
    requires Enabled(y, e)
  {
    match e
    case Issue(cmd) => Issuing(y, cmd)
    case Expire(reloginPending, shortWait) => Expiring(y, reloginPending, shortWait)
    case HearAck(ack) => Hearing(y, ack)
    case SkipIds(n) => y.(hub := Marks(y.hub, Snapshot(y.hub.tx + n, y.hub.rx)))
    case HubLogin => y.(hubSession := y.hubSession + 1, hub := Marks(y.hub, Snapshot(0, 0)), slot := NoCommand)
    case NodeLogin =>
      y.(nodeSession := y.hubSession, node := Runs.Step(y.node, Runs.NewSession), cache := Acks.Cleared())
    case NodeFlash(e) => y.(node := Runs.Step(y.node, e))
    case NodeReboot => y.(node := Runs.Step(y.node, Runs.Crash(true)), cache := Acks.Cleared())
    case Deliver(frame, nowUs, lands) => Delivering(y, frame, nowUs, lands)
  }

  // ---- what every state keeps -----------------------------------------------

  ghost predicate SameId(f: Frame, g: Frame) {
    f.session == g.session && f.id == g.id
  }

  /** One id, one frame: the ids on the air are the hub's and name one command each. */
  ghost predicate AirInv(y: System) {
    && y.hub.cfg == HUB_CONFIG
    && y.nodeSession <= y.hubSession
    && (forall f :: f in y.air ==> f.session <= y.hubSession)
    && (forall f :: f in y.air && f.session == y.hubSession ==> f.id <= y.hub.tx)
    && (forall f, g :: f in y.air && g in y.air && SameId(f, g) ==> f == g)
    && (y.slot.InFlight? ==> y.slot.frame in y.air)
  }

  /** Nothing runs twice; what ran was sent; what the window took has run. */
  ghost predicate RanInv(y: System) {
    && y.node.s.cfg == NODE_CONFIG
    && Runs.Inv(y.node)
    && (forall i :: 0 <= i < |y.ran| ==> y.ran[i].frame in y.air && y.ran[i].frame.session <= y.nodeSession)
    && (forall i, j :: 0 <= i < j < |y.ran| ==> !SameId(y.ran[i].frame, y.ran[j].frame))
    && (forall i :: 0 <= i < |y.ran| && y.ran[i].frame.session == y.nodeSession ==> y.ran[i].frame.id in y.node.took)
  }

  ghost predicate HasRun(y: System, session: nat, id: u32) {
    exists i :: 0 <= i < |y.ran| && y.ran[i].frame.session == session && y.ran[i].frame.id == id
  }

  ghost predicate FrameHasRun(y: System, f: Frame) {
    exists i :: 0 <= i < |y.ran| && y.ran[i].frame == f
  }

  /** Instants of the repeated acks of one command, in order. */
  function ReAcks(acks: seq<Ack>, session: nat, id: u32): seq<int> {
    if acks == [] then []
    else
      var last := acks[|acks| - 1];
      ReAcks(acks[..|acks| - 1], session, id)
      + (if last.again && last.session == session && last.id == id then [last.atUs] else [])
  }

  ghost predicate Spaced(times: seq<int>, from: int) {
    && (forall k :: 0 <= k < |times| ==> times[k] >= from + Acks.BURST_SPAN_US)
    && (forall k :: 0 < k < |times| ==> times[k] - times[k - 1] >= Acks.MIN_REACK_INTERVAL_US)
  }

  /** The cache entry of a command agrees with the repeated acks actually sent. */
  ghost predicate EntryInv(y: System, e: Acks.Entry) {
    var times := ReAcks(y.acks, y.nodeSession, e.msgid);
    && (exists i :: 0 <= i < |y.ran| && y.ran[i].frame.session == y.nodeSession
                    && y.ran[i].frame.id == e.msgid && y.ran[i].atUs == e.firstSeenUs)
    && e.firstSeenUs >= 0
    && |times| == e.reacks <= Acks.MAX_REACKS
    && e.lastReackUs == (if times == [] then 0 else times[|times| - 1])
  }

  ghost predicate CacheInv(y: System) {
    && (forall i, j :: 0 <= i < j < Acks.ENTRIES && y.cache.entries[i].valid && y.cache.entries[j].valid ==>
          y.cache.entries[i].msgid != y.cache.entries[j].msgid)
    && (forall i :: 0 <= i < Acks.ENTRIES && y.cache.entries[i].valid ==> EntryInv(y, y.cache.entries[i]))
  }

  /** Every ack names a command that has run. */
  ghost predicate AcksAreHonest(y: System) {
    forall k :: 0 <= k < |y.acks| ==> HasRun(y, y.acks[k].session, y.acks[k].id)
  }

  /** What the hub marks acknowledged, the node has run. */
  ghost predicate DeliveredHasRun(y: System) {
    forall k :: 0 <= k < |y.delivered| ==> FrameHasRun(y, y.delivered[k])
  }

  /** A command is acked again at most 3 times, none of them within a burst span
      of its run, and at least 2 s apart. */
  ghost predicate ReAcksAreBounded(y: System) {
    forall i :: 0 <= i < |y.ran| ==>
      var times := ReAcks(y.acks, y.ran[i].frame.session, y.ran[i].frame.id);
      |times| <= Acks.MAX_REACKS && Spaced(times, y.ran[i].atUs)
  }

  ghost predicate Inv(y: System) {
    AirInv(y) && RanInv(y) && CacheInv(y) && AcksAreHonest(y) && DeliveredHasRun(y) && ReAcksAreBounded(y)
  }

  lemma ReAcksAppend(acks: seq<Ack>, a: Ack, session: nat, id: u32)
    ensures ReAcks(acks + [a], session, id)
         == ReAcks(acks, session, id) + (if a.again && a.session == session && a.id == id then [a.atUs] else [])
  {
    assert (acks + [a])[..|acks|] == acks;
  }

  lemma {:induction false} NoReAcksBeforeRun(y: System, n: nat, session: nat, id: u32)
    requires n <= |y.acks| && !HasRun(y, session, id)
    requires forall k :: 0 <= k < |y.acks| ==> HasRun(y, y.acks[k].session, y.acks[k].id)
    ensures ReAcks(y.acks[..n], session, id) == []
  {
    if n > 0 {
      assert y.acks[..n][..n - 1] == y.acks[..n - 1];
      assert HasRun(y, y.acks[n - 1].session, y.acks[n - 1].id);
      NoReAcksBeforeRun(y, n - 1, session, id);
    }
  }

  /** The window never admits what this session has already run. */
  lemma AdmittedIsNew(y: System, f: Frame)
    requires RanInv(y) && f.session == y.nodeSession && Check(y.node.s, f.id)
    ensures !HasRun(y, f.session, f.id)
  {
    if HasRun(y, f.session, f.id) {
      Runs.TakenIsRefused(y.node, f.id);
    }
  }

  lemma RunningKeepsRanInv(y: System, f: Frame, nowUs: int, lands: bool)
    requires Inv(y) && Enabled(y, Deliver(f, nowUs, lands)) && Guarded(y, Deliver(f, nowUs, lands))
    requires f.session == y.nodeSession && Check(y.node.s, f.id)
    ensures RanInv(Delivering(y, f, nowUs, lands))
  {
    AdmittedIsNew(y, f);
    Runs.StepKeepsInv(y.node, Runs.Reception(f.id, nowUs, lands));
    var t := Delivering(y, f, nowUs, lands);
    forall i | 0 <= i < |t.ran| && t.ran[i].frame.session == t.nodeSession
      ensures t.ran[i].frame.id in t.node.took
    {
      if i == |y.ran| {
        assert t.node.took[|y.node.took|] == f.id;
      } else {
        assert y.ran[i].frame.id in y.node.took;
      }
    }
  }

  lemma HasRunStays(y: System, t: System, session: nat, id: u32)
    requires y.ran <= t.ran && HasRun(y, session, id)
    ensures HasRun(t, session, id)
  {
    var i :| 0 <= i < |y.ran| && y.ran[i].frame.session == session && y.ran[i].frame.id == id;
    assert t.ran[i] == y.ran[i];
  }

  lemma EntryStays(y: System, t: System, e: Acks.Entry)
    requires EntryInv(y, e)
    requires y.ran <= t.ran && y.nodeSession == t.nodeSession
    requires ReAcks(t.acks, t.nodeSession, e.msgid) == ReAcks(y.acks, y.nodeSession, e.msgid)
    ensures EntryInv(t, e)
  {
    var i :| 0 <= i < |y.ran| && y.ran[i].frame.session == y.nodeSession
             && y.ran[i].frame.id == e.msgid && y.ran[i].atUs == e.firstSeenUs;
    assert t.ran[i] == y.ran[i];
  }

  lemma CachedHasRun(y: System, id: u32)
    requires CacheInv(y)
    ensures Acks.Find(y.cache, id) < Acks.ENTRIES ==> HasRun(y, y.nodeSession, id)
  {
    var at := Acks.Find(y.cache, id);
    if at < Acks.ENTRIES {
      assert EntryInv(y, y.cache.entries[at]);
    }
  }

  lemma NewEntryHolds(y: System, f: Frame, nowUs: int, lands: bool, stamp: u32)
    requires Inv(y) && Enabled(y, Deliver(f, nowUs, lands)) && f.session == y.nodeSession && Check(y.node.s, f.id)
    ensures EntryInv(Delivering(y, f, nowUs, lands), Acks.Entry(true, f.id, nowUs, 0, 0, stamp))
  {
    var t := Delivering(y, f, nowUs, lands);
    AdmittedIsNew(y, f);
    NoReAcksBeforeRun(y, |y.acks|, f.session, f.id);
    assert y.acks[..|y.acks|] == y.acks;
    ReAcksAppend(y.acks, Ack(f.session, f.id, nowUs, false), f.session, f.id);
    assert t.ran[|y.ran|] == Ran(f, nowUs);
  }

  lemma OldEntryHolds(y: System, f: Frame, nowUs: int, lands: bool, e: Acks.Entry)
    requires EntryInv(y, e) && f.session == y.nodeSession && Check(y.node.s, f.id)
    ensures EntryInv(Delivering(y, f, nowUs, lands), e)
  {
    ReAcksAppend(y.acks, Ack(f.session, f.id, nowUs, false), y.nodeSession, e.msgid);
    EntryStays(y, Delivering(y, f, nowUs, lands), e);
  }

  lemma NotedIds(c: Acks.Cache, id: u32, nowUs: int)
    requires Acks.Find(c, id) == Acks.ENTRIES
    ensures Acks.Note(c, id, nowUs).entries
         == c.entries[Acks.SlotFor(c) := Acks.Entry(true, id, nowUs, 0, 0, c.nextStamp)]
    ensures forall k :: 0 <= k < Acks.ENTRIES && c.entries[k].valid ==> c.entries[k].msgid != id
  {
    forall k | 0 <= k < Acks.ENTRIES && c.entries[k].valid
      ensures c.entries[k].msgid != id
    {
      assert !Acks.Holds(c.entries, k, id);
    }
  }

  lemma RunningKeepsCacheInv(y: System, f: Frame, nowUs: int, lands: bool)
    requires Inv(y) && Enabled(y, Deliver(f, nowUs, lands)) && Guarded(y, Deliver(f, nowUs, lands))
    requires f.session == y.nodeSession && Check(y.node.s, f.id)
    ensures CacheInv(Delivering(y, f, nowUs, lands))
  {
    var t := Delivering(y, f, nowUs, lands);
    AdmittedIsNew(y, f);
    CachedHasRun(y, f.id);
    NotedIds(y.cache, f.id, nowUs);
    NewEntryHolds(y, f, nowUs, lands, y.cache.nextStamp);
    var slot := Acks.SlotFor(y.cache);
    forall i | 0 <= i < Acks.ENTRIES && t.cache.entries[i].valid
      ensures EntryInv(t, t.cache.entries[i])
    {
      if i != slot {
        OldEntryHolds(y, f, nowUs, lands, y.cache.entries[i]);
      }
    }
  }

  /** Acks and completions stay true when the node has run more. */
  lemma NamesStay(y: System, t: System)
    requires AcksAreHonest(y) && DeliveredHasRun(y) && y.ran <= t.ran
    ensures t.delivered == y.delivered ==> DeliveredHasRun(t)
    ensures forall k :: 0 <= k < |y.acks| ==> HasRun(t, y.acks[k].session, y.acks[k].id)
  {
    forall k | 0 <= k < |y.acks|
      ensures HasRun(t, y.acks[k].session, y.acks[k].id)
    {
      HasRunStays(y, t, y.acks[k].session, y.acks[k].id);
    }
    forall k | 0 <= k < |y.delivered|
      ensures FrameHasRun(t, y.delivered[k])
    {
      var i :| 0 <= i < |y.ran| && y.ran[i].frame == y.delivered[k];
      assert t.ran[i] == y.ran[i];
    }
  }

  lemma RunningKeepsNames(y: System, f: Frame, nowUs: int, lands: bool)
    requires Inv(y) && f.session == y.nodeSession && Check(y.node.s, f.id)
    ensures var t := Delivering(y, f, nowUs, lands);
            AcksAreHonest(t) && DeliveredHasRun(t)
  {
    var t := Delivering(y, f, nowUs, lands);
    NamesStay(y, t);
    assert t.ran[|y.ran|].frame == f;
    assert HasRun(t, f.session, f.id);
  }

  lemma RunningKeepsBounds(y: System, f: Frame, nowUs: int, lands: bool)
    requires Inv(y) && f.session == y.nodeSession && Check(y.node.s, f.id)
    ensures ReAcksAreBounded(Delivering(y, f, nowUs, lands))
  {
    AdmittedIsNew(y, f);
    var t := Delivering(y, f, nowUs, lands);
    NoReAcksBeforeRun(y, |y.acks|, f.session, f.id);
    assert y.acks[..|y.acks|] == y.acks;
    forall i | 0 <= i < |t.ran|
      ensures var times := ReAcks(t.acks, t.ran[i].frame.session, t.ran[i].frame.id);
              |times| <= Acks.MAX_REACKS && Spaced(times, t.ran[i].atUs)
    {
      ReAcksAppend(y.acks, Ack(f.session, f.id, nowUs, false), t.ran[i].frame.session, t.ran[i].frame.id);
    }
  }

  /** A repeated ack lengthens its command's list and keeps it spaced. */
  lemma ReAckIsSpaced(y: System, f: Frame, nowUs: int, r: nat)
    requires Inv(y) && f.session == y.nodeSession && Acks.Classify(y.cache, f.id, nowUs).ReAck?
    requires r < |y.ran| && y.ran[r].frame.session == y.nodeSession && y.ran[r].frame.id == f.id
    ensures var times := ReAcks(y.acks, y.nodeSession, f.id);
            |times| < Acks.MAX_REACKS && Spaced(times + [nowUs], y.ran[r].atUs)
  {
    var e := y.cache.entries[Acks.Find(y.cache, f.id)];
    assert EntryInv(y, e);
    RunOfEntry(y, e, r);
  }

  /** An entry's instant is that of the one run of its command. */
  lemma RunOfEntry(y: System, e: Acks.Entry, r: nat)
    requires RanInv(y) && EntryInv(y, e)
    requires r < |y.ran| && y.ran[r].frame.session == y.nodeSession && y.ran[r].frame.id == e.msgid
    ensures y.ran[r].atUs == e.firstSeenUs
  {
    var i :| 0 <= i < |y.ran| && y.ran[i].frame.session == y.nodeSession
             && y.ran[i].frame.id == e.msgid && y.ran[i].atUs == e.firstSeenUs;
    assert SameId(y.ran[i].frame, y.ran[r].frame);
    assert i == r;
  }

  lemma ReAckKeepsCacheInv(y: System, f: Frame, nowUs: int, lands: bool)
    requires Inv(y) && f.session == y.nodeSession && !Check(y.node.s, f.id)
    requires Acks.Classify(y.cache, f.id, nowUs).ReAck?
    ensures CacheInv(Delivering(y, f, nowUs, lands))
  {
    var t := Delivering(y, f, nowUs, lands);
    var a := Ack(f.session, f.id, nowUs, true);
    var at := Acks.Find(y.cache, f.id);
    assert EntryInv(y, y.cache.entries[at]);
    ReAcksAppend(y.acks, a, f.session, f.id);
    forall i | 0 <= i < Acks.ENTRIES && t.cache.entries[i].valid
      ensures EntryInv(t, t.cache.entries[i])
    {
      if i != at {
        assert y.cache.entries[i].valid;
        ReAcksAppend(y.acks, a, y.nodeSession, t.cache.entries[i].msgid);
        EntryStays(y, t, t.cache.entries[i]);
      }
    }
  }

  lemma ReAckKeepsAcks(y: System, f: Frame, nowUs: int, lands: bool)
    requires Inv(y) && f.session == y.nodeSession && !Check(y.node.s, f.id)
    requires Acks.Classify(y.cache, f.id, nowUs).ReAck?
    ensures var t := Delivering(y, f, nowUs, lands);
            AcksAreHonest(t) && DeliveredHasRun(t) && ReAcksAreBounded(t)
  {
    var t := Delivering(y, f, nowUs, lands);
    CachedHasRun(y, f.id);
    HasRunStays(y, t, f.session, f.id);
    NamesStay(y, t);
    forall i | 0 <= i < |t.ran|
      ensures var times := ReAcks(t.acks, t.ran[i].frame.session, t.ran[i].frame.id);
              |times| <= Acks.MAX_REACKS && Spaced(times, t.ran[i].atUs)
    {
      var g := t.ran[i].frame;
      ReAcksAppend(y.acks, Ack(f.session, f.id, nowUs, true), g.session, g.id);
      if SameId(g, f) {
        ReAckIsSpaced(y, f, nowUs, i);
      }
    }
  }

  lemma DeliveryKeepsInv(y: System, f: Frame, nowUs: int, lands: bool)
    requires Inv(y) && Enabled(y, Deliver(f, nowUs, lands)) && Guarded(y, Deliver(f, nowUs, lands))
    ensures Inv(Delivering(y, f, nowUs, lands))
  {
    if f.session == y.nodeSession {
      if Check(y.node.s, f.id) {
        RunningKeepsRanInv(y, f, nowUs, lands);
        RunningKeepsCacheInv(y, f, nowUs, lands);
        RunningKeepsNames(y, f, nowUs, lands);
        RunningKeepsBounds(y, f, nowUs, lands);
      } else if Acks.Classify(y.cache, f.id, nowUs).ReAck? {
        ReAckKeepsCacheInv(y, f, nowUs, lands);
        ReAckKeepsAcks(y, f, nowUs, lands);
      }
    }
  }

  /** Steps that touch neither what ran nor what was acked. */
  lemma QuietStepKeepsAcks(y: System, t: System)
    requires CacheInv(y) && AcksAreHonest(y) && DeliveredHasRun(y) && ReAcksAreBounded(y)
    requires t.ran == y.ran && t.acks == y.acks
    requires (t.cache == y.cache && t.nodeSession == y.nodeSession) || t.cache == Acks.Cleared()
    ensures CacheInv(t) && AcksAreHonest(t) && ReAcksAreBounded(t)
    ensures t.delivered == y.delivered ==> DeliveredHasRun(t)
  {
    NamesStay(y, t);
    forall i | 0 <= i < Acks.ENTRIES && t.cache.entries[i].valid
      ensures EntryInv(t, t.cache.entries[i])
    {
      EntryStays(y, t, t.cache.entries[i]);
    }
  }

  lemma HubAllocates(hub: State)
    requires hub.cfg == HUB_CONFIG
    ensures var (t, a) := HubAllocate(hub);
            t.cfg == hub.cfg && (a.status.Ok? ==> a.fcnt == t.tx == hub.tx + 1 < FCNT_LIMIT) && t.tx >= hub.tx
  {
  }

  lemma IssueKeepsInv(y: System, cmd: Command)
    requires Inv(y)
    ensures Inv(Issuing(y, cmd))
  {
    HubAllocates(y.hub);
    QuietStepKeepsAcks(y, Issuing(y, cmd));
  }

  lemma ExpiryKeepsInv(y: System, reloginPending: bool, shortWait: bool)
    requires Inv(y)
    ensures Inv(Expiring(y, reloginPending, shortWait))
  {
    ExpiryOnlyResends(y, reloginPending, shortWait);
    QuietStepKeepsAcks(y, Expiring(y, reloginPending, shortWait));
  }

  lemma ExpiryOnlyResends(y: System, reloginPending: bool, shortWait: bool)
    requires y.slot.InFlight? ==> y.slot.frame in y.air
    ensures var t := Expiring(y, reloginPending, shortWait);
            && t == y.(slot := t.slot) && (t.slot.InFlight? ==> y.slot.InFlight? && t.slot.frame == y.slot.frame)
  {
    assert y.slot.InFlight? ==> y.air + {y.slot.frame} == y.air;
  }

  lemma HubStepKeepsInv(y: System, e: Event)
    requires Inv(y) && Enabled(y, e)
    requires e.SkipIds? || e.HubLogin?
    ensures Inv(Step(y, e))
  {
    QuietStepKeepsAcks(y, Step(y, e));
  }

  /** An ack completes the very command that ran under its id. */
  lemma HearingKeepsInv(y: System, ack: Ack)
    requires Inv(y) && ack in y.acks
    ensures Inv(Hearing(y, ack))
  {
    var t := Hearing(y, ack);
    QuietStepKeepsAcks(y, t);
    if t != y {
      assert HasRun(y, ack.session, ack.id);
      var i :| 0 <= i < |y.ran| && y.ran[i].frame.session == ack.session && y.ran[i].frame.id == ack.id;
      assert SameId(y.ran[i].frame, y.slot.frame);
      forall k | 0 <= k < |t.delivered|
        ensures FrameHasRun(t, t.delivered[k])
      {
        if k == |y.delivered| {
          assert t.ran[i].frame == t.delivered[k];
        } else {
          assert FrameHasRun(y, y.delivered[k]);
        }
      }
    }
  }

  lemma NodeStepKeepsInv(y: System, e: Event)
    requires Inv(y) && Enabled(y, e) && Guarded(y, e)
    requires e.NodeFlash? || e.NodeReboot? || e.NodeLogin?
    ensures Inv(Step(y, e))
  {
    var inner := match e case NodeFlash(e) => e case NodeReboot => Runs.Crash(true) case _ => Runs.NewSession;
    Runs.StepKeepsInv(y.node, inner);
    assert inner.NewSession? || Runs.Step(y.node, inner).took == y.node.took;
    QuietStepKeepsAcks(y, Step(y, e));
  }

  lemma StepKeepsInv(y: System, e: Event)
    requires Inv(y) && Enabled(y, e) && Guarded(y, e)
    ensures Inv(Step(y, e))
  {
    match e
    case Issue(cmd) => IssueKeepsInv(y, cmd);
    case Expire(reloginPending, shortWait) => ExpiryKeepsInv(y, reloginPending, shortWait);
    case Deliver(f, nowUs, lands) => DeliveryKeepsInv(y, f, nowUs, lands);
    case HearAck(ack) => HearingKeepsInv(y, ack);
    case NodeFlash(_) => NodeStepKeepsInv(y, e);
    case NodeReboot => NodeStepKeepsInv(y, e);
    case NodeLogin => NodeStepKeepsInv(y, e);
    case _ => HubStepKeepsInv(y, e);
  }

  // ---- the end-to-end theorem -----------------------------------------------

  ghost predicate Reaches(y: System, run: seq<Event>, t: System)
    decreases |run|
  {
    if run == [] then y == t
    else Enabled(y, run[0]) && Guarded(y, run[0]) && Reaches(Step(y, run[0]), run[1..], t)
  }

  lemma {:induction false} RunKeepsInv(y: System, run: seq<Event>, t: System)
    requires Inv(y) && Reaches(y, run, t)
    ensures Inv(t)
    decreases |run|
  {
    if run != [] {
      StepKeepsInv(y, run[0]);
      RunKeepsInv(Step(y, run[0]), run[1..], t);
    }
  }

  /** A command id runs at most once, and only as the hub sent it. */
  ghost predicate RunsAtMostOnce(y: System) {
    && (forall i, j :: 0 <= i < j < |y.ran| ==> !SameId(y.ran[i].frame, y.ran[j].frame))
    && (forall i :: 0 <= i < |y.ran| ==> y.ran[i].frame in y.air)
  }

  lemma EndToEnd(run: seq<Event>, t: System)
    requires Reaches(Start(), run, t)
    ensures RunsAtMostOnce(t) && AcksAreHonest(t) && DeliveredHasRun(t) && ReAcksAreBounded(t)
  {
    RunKeepsInv(Start(), run, t);
  }
}
