/**
 What the delivery system does do: which frames the node runs, which repeats it answers,
 and how a command gets through (Delivery.dfy says what it never does).
 */
module DeliveryProgress {
  import opened Machine
  import opened Sequencer
  import opened Delivery
  import Runs = SequencerRuns
  import Acks = AckCache

  // ---- which frames are run -------------------------------------------------

  /** Since the node's login, or since the start, it has not rebooted: its window stands for
      exactly the ids of the session that ran. */
  ghost predicate Intact(y: System) {
    && Runs.Exact(y.node)
    && (forall f <- y.node.took :: HasRun(y, y.nodeSession, f))
  }

  predicate Reboots(run: seq<Event>) {
    exists e <- run :: e.NodeReboot?
  }

  lemma RunningKeepsIntact(y: System, f: Frame, nowUs: int, lands: bool)
    requires Inv(y) && Intact(y) && f.session == y.nodeSession && Check(y.node.s, f.id)
    ensures Intact(Delivering(y, f, nowUs, lands))
  {
    var t := Delivering(y, f, nowUs, lands);
    Runs.ReceptionKeepsExact(y.node, f.id, nowUs, lands);
    forall x | x in t.node.took
      ensures HasRun(t, t.nodeSession, x)
    {
      if x == f.id {
        assert t.ran[|y.ran|] == Ran(f, nowUs);
      } else {
        HasRunStays(y, t, y.nodeSession, x);
      }
    }
  }

  lemma QuietKeepsIntact(y: System, t: System)
    requires Intact(y) && t.ran == y.ran && t.nodeSession == y.nodeSession
    requires Runs.Exact(t.node) && t.node.took == y.node.took
    ensures Intact(t)
  {
    forall x | x in t.node.took
      ensures HasRun(t, t.nodeSession, x)
    {
      HasRunStays(y, t, y.nodeSession, x);
    }
  }

  lemma StepKeepsIntact(y: System, e: Event)
    requires Inv(y) && Intact(y) && Enabled(y, e) && Guarded(y, e) && !e.NodeReboot?
    ensures Intact(Step(y, e))
  {
    if e.NodeLogin? {
      LoginIsIntact(y);
    } else if e.Deliver? && e.frame.session == y.nodeSession && Check(y.node.s, e.frame.id) {
      RunningKeepsIntact(y, e.frame, e.nowUs, e.lands);
    } else {
      if e.NodeFlash? {
        Runs.StepKeepsExact(y.node, e.e);
      }
      QuietKeepsIntact(y, Step(y, e));
    }
  }

  /** A login makes the window new, whatever the node went through before. */
  lemma LoginIsIntact(y: System)
    requires Inv(y) && Enabled(y, NodeLogin)
    ensures Intact(Step(y, NodeLogin)) && Step(y, NodeLogin).node.took == []
  {
    ResetWindowIsEmpty(y.node.s, 0);
    assert Runs.Ids([]) == {};
  }

  lemma StartIsIntact()
    ensures Inv(Start()) && Intact(Start())
  {
    assert Runs.Ids([]) == {};
  }

  lemma {:induction false} RunKeepsIntact(y: System, run: seq<Event>, t: System)
    requires Inv(y) && Intact(y) && Reaches(y, run, t) && !Reboots(run)
    ensures Inv(t) && Intact(t)
    decreases |run|
  {
    if run != [] {
      assert run[0] in run && forall e <- run[1..] :: e in run;
      StepKeepsInv(y, run[0]);
      StepKeepsIntact(y, run[0]);
      RunKeepsIntact(Step(y, run[0]), run[1..], t);
    }
  }

  /** The node's own mark: the highest id of the session that has run, 0 before the first. */
  ghost predicate IsHighestRun(y: System, mark: u32) {
    && (forall i :: 0 <= i < |y.ran| && y.ran[i].frame.session == y.nodeSession ==> y.ran[i].frame.id <= mark)
    && (mark == 0 || HasRun(y, y.nodeSession, mark))
  }

  /** The delivered frame is run by the delivery. */
  ghost predicate RunsNow(y: System, f: Frame, nowUs: int, lands: bool) {
    Delivering(y, f, nowUs, lands).ran == y.ran + [Ran(f, nowUs)]
  }

  lemma IntactRunsIff(y: System, f: Frame, nowUs: int, lands: bool)
    requires Inv(y) && Intact(y) && f.session == y.nodeSession
    ensures RunsNow(y, f, nowUs, lands) <==> !HasRun(y, f.session, f.id) && InReach(y.node.s.rx, f.id)
    ensures !RunsNow(y, f, nowUs, lands) ==> Delivering(y, f, nowUs, lands).ran == y.ran
    ensures IsHighestRun(y, y.node.s.rx)
  {
    CheckIsMembership(y.node.s, Runs.Ids(y.node.took), f.id);
    assert y.ran + [Ran(f, nowUs)] != y.ran;
    if HasRun(y, f.session, f.id) {
      var i :| 0 <= i < |y.ran| && y.ran[i].frame.session == f.session && y.ran[i].frame.id == f.id;
      assert f.id in y.node.took;
    }
    forall i | 0 <= i < |y.ran| && y.ran[i].frame.session == y.nodeSession
      ensures y.ran[i].frame.id <= y.node.s.rx
    {
      assert y.ran[i].frame.id in Runs.Ids(y.node.took);
    }
  }

  /** Over every run, from any login of the node to its next reboot: a delivered frame of the
      session is run exactly when its id has not run and is in reach of the highest that has. */
  lemma RunsIff(run: seq<Event>, y: System, more: seq<Event>, t: System, f: Frame, nowUs: int, lands: bool)
    requires Reaches(Start(), run, y) && Enabled(y, NodeLogin)
    requires Reaches(Step(y, NodeLogin), more, t) && !Reboots(more) && f.session == t.nodeSession
    ensures IsHighestRun(t, t.node.s.rx)
    ensures RunsNow(t, f, nowUs, lands) <==> !HasRun(t, f.session, f.id) && InReach(t.node.s.rx, f.id)
  {
    StartIsIntact();
    RunKeepsInv(Start(), run, y);
    StepKeepsInv(y, NodeLogin);
    LoginIsIntact(y);
    RunKeepsIntact(Step(y, NodeLogin), more, t);
    IntactRunsIff(t, f, nowUs, lands);
  }

  /** So the first command of a session is run by its first delivery, wherever in the first
      1024 ids it lies. */
  lemma FirstCommandRuns(run: seq<Event>, y: System, more: seq<Event>, t: System, f: Frame, nowUs: int, lands: bool)
    requires Reaches(Start(), run, y) && Enabled(y, NodeLogin)
    requires Reaches(Step(y, NodeLogin), more, t) && !Reboots(more) && f.session == t.nodeSession
    requires (forall i :: 0 <= i < |t.ran| ==> t.ran[i].frame.session != t.nodeSession) && f.id <= FORWARD_WINDOW
    ensures RunsNow(t, f, nowUs, lands)
  {
    RunsIff(run, y, more, t, f, nowUs, lands);
  }

  // ---- which repeats are answered -------------------------------------------

  /** The delivery answers a repeat with one more ack. */
  ghost predicate AnswersAgain(y: System, f: Frame, nowUs: int, lands: bool) {
    Delivering(y, f, nowUs, lands).acks == y.acks + [Ack(f.session, f.id, nowUs, true)]
  }

  /** One more repeated ack keeps to the budget and the spacing: at most three, none within
      the burst span of the run, none within two seconds of the one before. */
  ghost predicate MayAnswer(y: System, r: nat, nowUs: int)
    requires r < |y.ran|
  {
    var times := ReAcks(y.acks, y.ran[r].frame.session, y.ran[r].frame.id);
    && |times| < 3 && nowUs - y.ran[r].atUs >= 1451072
    && (times == [] || nowUs - times[|times| - 1] >= 2000000)
  }

  /** A repeat of a command still in the cache is answered exactly when the budget and the
      spacing allow it. */
  lemma AnsweredIff(y: System, f: Frame, nowUs: int, lands: bool, r: nat)
    requires Inv(y) && f.session == y.nodeSession && !Check(y.node.s, f.id)
    requires r < |y.ran| && SameId(y.ran[r].frame, f) && Acks.Find(y.cache, f.id) < Acks.ENTRIES
    ensures AnswersAgain(y, f, nowUs, lands) <==> MayAnswer(y, r, nowUs)
  {
    var e := y.cache.entries[Acks.Find(y.cache, f.id)];
    assert EntryInv(y, e);
    RunOfEntry(y, e, r);
    var times := ReAcks(y.acks, y.nodeSession, f.id);
    assert ReAcksAreBounded(y) && Spaced(times, y.ran[r].atUs);
    LastIsLate(times, y.ran[r].atUs);
    assert y.acks + [Ack(f.session, f.id, nowUs, true)] != y.acks;
  }

  /** No repeated ack is sent at instant 0, which stands for none. */
  lemma LastIsLate(times: seq<int>, from: int)
    requires Spaced(times, from) && from >= 0
    ensures times != [] ==> times[|times| - 1] > 0
  {
  }

  // ---- what the cache remembers over a run ----------------------------------

  /** Insertion stamps are in order, and no more than the commands that ran. */
  ghost predicate InOrder(y: System) {
    Acks.Stamped(y.cache) && y.cache.nextStamp <= |y.ran| + 1
  }

  /** The command is at place i of the cache, with at most so many noted after it. */
  ghost predicate Remembers(y: System, i: nat, id: u32, younger: nat) {
    && i < Acks.ENTRIES && y.cache.entries[i].valid && y.cache.entries[i].msgid == id
    && Acks.Younger(y.cache, i) <= younger
  }

  predicate SamePlace(d: Acks.Entry, e: Acks.Entry) {
    d.valid == e.valid && d.msgid == e.msgid && d.stamp == e.stamp
  }

  lemma ReAckKeepsStamps(c: Acks.Cache, id: u32, nowUs: int)
    ensures var d := Acks.NoteReAck(c, id, nowUs);
            && d.nextStamp == c.nextStamp && (Acks.Stamped(c) ==> Acks.Stamped(d))
            && forall k :: 0 <= k < Acks.ENTRIES ==> SamePlace(d.entries[k], c.entries[k])
  {
  }

  lemma NotCachedYet(y: System, f: Frame)
    requires Inv(y) && f.session == y.nodeSession && Check(y.node.s, f.id)
    ensures Acks.Find(y.cache, f.id) == Acks.ENTRIES
  {
    CachedHasRun(y, f.id);
    AdmittedIsNew(y, f);
  }

  lemma StepKeepsOrder(y: System, e: Event)
    requires Inv(y) && InOrder(y) && Enabled(y, e) && |y.ran| < U32_MOD - 2
    ensures InOrder(Step(y, e)) && |y.ran| <= |Step(y, e).ran| <= |y.ran| + 1
  {
    if e.Deliver? && e.frame.session == y.nodeSession {
      if Check(y.node.s, e.frame.id) {
        NotCachedYet(y, e.frame);
        Acks.NoteKeepsStamped(y.cache, e.frame.id, e.nowUs);
      } else {
        ReAckKeepsStamps(y.cache, e.frame.id, e.nowUs);
      }
    }
  }

  lemma ReAckRemembers(c: Acks.Cache, id: u32, nowUs: int, i: nat)
    requires i < Acks.ENTRIES
    ensures var d := Acks.NoteReAck(c, id, nowUs);
            SamePlace(d.entries[i], c.entries[i]) && Acks.Younger(d, i) == Acks.Younger(c, i)
  {
    ReAckKeepsStamps(c, id, nowUs);
    var d := Acks.NoteReAck(c, id, nowUs);
    assert SamePlace(d.entries[0], c.entries[0]) && SamePlace(d.entries[1], c.entries[1]);
    assert SamePlace(d.entries[2], c.entries[2]) && SamePlace(d.entries[3], c.entries[3]);
  }

  lemma RunningRemembers(y: System, f: Frame, nowUs: int, lands: bool, i: nat, id: u32, younger: nat)
    requires Inv(y) && InOrder(y) && |y.ran| < U32_MOD - 2 && f.session == y.nodeSession && Check(y.node.s, f.id)
    requires Remembers(y, i, id, younger) && younger < 3
    ensures Remembers(Delivering(y, f, nowUs, lands), i, id, younger + 1)
  {
    Acks.NoteSparesTheYoung(y.cache, f.id, nowUs, i);
  }

  lemma StepRemembers(y: System, e: Event, i: nat, id: u32, younger: nat)
    requires Inv(y) && InOrder(y) && Enabled(y, e) && |y.ran| < U32_MOD - 2
    requires Remembers(y, i, id, younger) && !e.NodeReboot? && !e.NodeLogin?
    requires younger + |Step(y, e).ran| - |y.ran| <= 3
    ensures Remembers(Step(y, e), i, id, younger + |Step(y, e).ran| - |y.ran|)
  {
    if e.Deliver? && e.frame.session == y.nodeSession {
      if Check(y.node.s, e.frame.id) {
        RunningRemembers(y, e.frame, e.nowUs, e.lands, i, id, younger);
      } else {
        ReAckRemembers(y.cache, e.frame.id, e.nowUs, i);
      }
    }
  }

  /** Neither a reboot nor a login. */
  ghost predicate SameBoot(run: seq<Event>) {
    forall e <- run :: !e.NodeReboot? && !e.NodeLogin?
  }

  lemma {:induction false} RunKeepsOrder(y: System, run: seq<Event>, t: System)
    requires Inv(y) && InOrder(y) && Reaches(y, run, t) && |t.ran| < U32_MOD - 2
    ensures Inv(t) && InOrder(t) && |y.ran| <= |t.ran|
    decreases |run|
  {
    if run != [] {
      RanOnlyGrows(y, run, t);
      StepKeepsInv(y, run[0]);
      StepKeepsOrder(y, run[0]);
      RunKeepsOrder(Step(y, run[0]), run[1..], t);
    }
  }

  lemma {:induction false} RanOnlyGrows(y: System, run: seq<Event>, t: System)
    requires Reaches(y, run, t)
    ensures y.ran <= t.ran
    decreases |run|
  {
    if run != [] {
      assert y.ran <= Step(y, run[0]).ran;
      RanOnlyGrows(Step(y, run[0]), run[1..], t);
    }
  }

  lemma {:induction false} RunRemembers(y: System, run: seq<Event>, t: System, i: nat, id: u32, younger: nat)
    requires Inv(y) && InOrder(y) && Reaches(y, run, t) && |t.ran| < U32_MOD - 2 && SameBoot(run)
    requires Remembers(y, i, id, younger) && younger + |t.ran| - |y.ran| <= 3
    ensures |y.ran| <= |t.ran| && Remembers(t, i, id, younger + |t.ran| - |y.ran|)
    decreases |run|
  {
    if run != [] {
      assert run[0] in run && forall e <- run[1..] :: e in run;
      var z := Step(y, run[0]);
      RanOnlyGrows(y, run, t);
      RanOnlyGrows(z, run[1..], t);
      StepKeepsInv(y, run[0]);
      StepKeepsOrder(y, run[0]);
      StepRemembers(y, run[0], i, id, younger);
      RunRemembers(z, run[1..], t, i, id, younger + |z.ran| - |y.ran|);
    }
  }

  lemma SameSession(y: System, run: seq<Event>, t: System)
    requires Reaches(y, run, t) && SameBoot(run)
    ensures t.nodeSession == y.nodeSession
    decreases |run|
  {
    if run != [] {
      assert run[0] in run && forall e <- run[1..] :: e in run;
      SameSession(Step(y, run[0]), run[1..], t);
    }
  }

  lemma RunIsRemembered(y: System, f: Frame, atUs: int, lands: bool)
    requires Inv(y) && InOrder(y) && Enabled(y, Deliver(f, atUs, lands)) && |y.ran| < U32_MOD - 3
    requires f.session == y.nodeSession && Check(y.node.s, f.id)
    ensures var u := Delivering(y, f, atUs, lands); InOrder(u) && exists i :: Remembers(u, i, f.id, 0)
  {
    var u, slot := Delivering(y, f, atUs, lands), Acks.SlotFor(y.cache);
    NotCachedYet(y, f);
    Acks.NoteKeepsStamped(y.cache, f.id, atUs);
    Acks.YoungestOfAll(u.cache, slot);
    assert Remembers(u, slot, f.id, 0);
  }

  lemma StillCached(u: System, more: seq<Event>, t: System, id: u32)
    requires Inv(u) && InOrder(u) && (exists i :: Remembers(u, i, id, 0))
    requires Reaches(u, more, t) && SameBoot(more) && |u.ran| <= |t.ran| <= |u.ran| + 3 && |t.ran| < U32_MOD - 3
    ensures Inv(t) && t.nodeSession == u.nodeSession && Acks.Find(t.cache, id) < Acks.ENTRIES
  {
    var i :| Remembers(u, i, id, 0);
    RunRemembers(u, more, t, i, id, 0);
    RunKeepsOrder(u, more, t);
    SameSession(u, more, t);
    Acks.FoundWhereItIs(t.cache, i);
  }

  lemma StillAnswerable(y: System, f: Frame, atUs: int, lands: bool, more: seq<Event>, t: System)
    requires Inv(y) && InOrder(y) && Enabled(y, Deliver(f, atUs, lands)) && Guarded(y, Deliver(f, atUs, lands))
    requires f.session == y.nodeSession && Check(y.node.s, f.id)
    requires Reaches(Delivering(y, f, atUs, lands), more, t) && SameBoot(more)
    requires |t.ran| <= |y.ran| + 4 && |t.ran| < U32_MOD - 3
    ensures Inv(t) && t.nodeSession == f.session && !Check(t.node.s, f.id)
    ensures |y.ran| < |t.ran| && t.ran[|y.ran|] == Ran(f, atUs) && Acks.Find(t.cache, f.id) < Acks.ENTRIES
  {
    var u := Delivering(y, f, atUs, lands);
    RanOnlyGrows(u, more, t);
    StepKeepsInv(y, Deliver(f, atUs, lands));
    RunIsRemembered(y, f, atUs, lands);
    StillCached(u, more, t, f.id);
    RanIsRefused(t, |y.ran|);
  }

  lemma RanIsRefused(t: System, r: nat)
    requires Inv(t) && r < |t.ran| && t.ran[r].frame.session == t.nodeSession
    ensures !Check(t.node.s, t.ran[r].frame.id)
  {
    Runs.TakenIsRefused(t.node, t.ran[r].frame.id);
  }

  /** Over every run: a command the node ran stays answerable as long as the node neither
      reboots nor logs in and at most three newer commands run. A repeat of it is answered
      exactly when the budget of three and the spacing allow it, whatever else happened. */
  lemma RepeatIsAnsweredIff(run: seq<Event>, y: System, f: Frame, atUs: int, lands: bool, more: seq<Event>, t: System,
                            nowUs: int, lands2: bool)
    requires Reaches(Start(), run, y) && Enabled(y, Deliver(f, atUs, lands)) && Guarded(y, Deliver(f, atUs, lands))
    requires f.session == y.nodeSession && Check(y.node.s, f.id)
    requires Reaches(Delivering(y, f, atUs, lands), more, t) && SameBoot(more)
    requires |t.ran| <= |y.ran| + 4 && |t.ran| < U32_MOD - 3
    ensures |y.ran| < |t.ran| && t.ran[|y.ran|] == Ran(f, atUs)
    ensures AnswersAgain(t, f, nowUs, lands2) <==> MayAnswer(t, |y.ran|, nowUs)
  {
    StartIsIntact();
    RanOnlyGrows(Delivering(y, f, atUs, lands), more, t);
    RunKeepsOrder(Start(), run, y);
    StillAnswerable(y, f, atUs, lands, more, t);
    AnsweredIff(t, f, nowUs, lands2, |y.ran|);
  }

  /** In particular the first repeat after the burst span, when no repeat was answered yet: a
      lost ack is made good, and the hub that hears it is done with the command. */
  lemma LostAckIsMadeGood(run: seq<Event>, y: System, f: Frame, atUs: int, lands: bool, more: seq<Event>, t: System,
                          nowUs: int, lands2: bool)
    requires Reaches(Start(), run, y) && Enabled(y, Deliver(f, atUs, lands)) && Guarded(y, Deliver(f, atUs, lands))
    requires f.session == y.nodeSession && Check(y.node.s, f.id)
    requires Reaches(Delivering(y, f, atUs, lands), more, t) && SameBoot(more)
    requires |t.ran| <= |y.ran| + 4 && |t.ran| < U32_MOD - 3
    requires ReAcks(t.acks, f.session, f.id) == [] && nowUs >= atUs + Acks.BURST_SPAN_US
    ensures AnswersAgain(t, f, nowUs, lands2)
    ensures t.slot.InFlight? && t.slot.frame == f ==>
              Hearing(Delivering(t, f, nowUs, lands2), Ack(f.session, f.id, nowUs, true)).delivered == t.delivered + [f]
  {
    RepeatIsAnsweredIff(run, y, f, atUs, lands, more, t, nowUs, lands2);
  }

  // ---- how a command gets through -------------------------------------------

  /** The frame the hub's next command goes out in. */
  function NextFrame(y: System, cmd: Command): Frame
    requires y.hub.tx < FCNT_LIMIT - 1
  {
    Frame(y.hubSession, y.hub.tx + 1, cmd)
  }

  lemma IssueTakesTheSlot(y: System, cmd: Command)
    requires Inv(y) && y.hub.tx < FCNT_LIMIT - 1
    ensures var t := Issuing(y, cmd);
            && t.slot == InFlight(NextFrame(y, cmd), 0) && NextFrame(y, cmd) in t.air
            && t.node == y.node && t.ran == y.ran && t.nodeSession == y.nodeSession && t.delivered == y.delivered
  {
    AllocatesIff(y.hub, true);
  }

  lemma NextIsNew(y: System, cmd: Command)
    requires Inv(y) && Intact(y) && y.nodeSession == y.hubSession && y.hub.tx < FCNT_LIMIT - 1
    ensures !HasRun(y, y.nodeSession, y.hub.tx + 1) && y.node.s.rx <= y.hub.tx
  {
    forall i | 0 <= i < |y.ran| && y.ran[i].frame.session == y.nodeSession
      ensures y.ran[i].frame.id <= y.hub.tx
    {
      assert y.ran[i].frame in y.air;
    }
  }

  lemma AfterLogin(run: seq<Event>, y: System, more: seq<Event>, t: System)
    requires Reaches(Start(), run, y) && Enabled(y, NodeLogin)
    requires Reaches(Step(y, NodeLogin), more, t) && !Reboots(more)
    ensures Inv(t) && Intact(t)
  {
    StartIsIntact();
    RunKeepsInv(Start(), run, y);
    StepKeepsInv(y, NodeLogin);
    LoginIsIntact(y);
    RunKeepsIntact(Step(y, NodeLogin), more, t);
  }

  lemma IssuedRuns(y: System, cmd: Command, nowUs: int, lands: bool)
    requires Inv(y) && Intact(y) && y.nodeSession == y.hubSession
    requires y.hub.tx < FCNT_LIMIT - 1 && y.hub.tx < y.node.s.rx + FORWARD_WINDOW
    ensures RunsNow(Issuing(y, cmd), NextFrame(y, cmd), nowUs, lands)
  {
    NextIsNew(y, cmd);
    IssueTakesTheSlot(y, cmd);
    StepKeepsInv(y, Issue(cmd));
    QuietKeepsIntact(y, Issuing(y, cmd));
    IntactRunsIff(Issuing(y, cmd), NextFrame(y, cmd), nowUs, lands);
  }

  /** Running is acked at once, and the hub that hears it is done with the command. */
  lemma RunIsAckedAndDone(y: System, f: Frame, nowUs: int, lands: bool)
    requires f.session == y.nodeSession && RunsNow(y, f, nowUs, lands) && y.slot.InFlight? && y.slot.frame == f
    ensures var ran := Delivering(y, f, nowUs, lands);
            var done := Hearing(ran, Ack(f.session, f.id, nowUs, false));
            && ran.acks == y.acks + [Ack(f.session, f.id, nowUs, false)]
            && done.delivered == y.delivered + [f] && done.slot == NoCommand
  {
    assert y.ran + [Ran(f, nowUs)] != y.ran;
  }

  /** A command issued while the node is on the hub's session, not rebooted since, and not
      more than 1023 ids behind: delivered once it runs, and the hub that hears its ack marks
      exactly it as delivered and is free for the next. */
  lemma CommandGetsThrough(run: seq<Event>, y: System, more: seq<Event>, t: System, cmd: Command, nowUs: int,
                           lands: bool)
    requires Reaches(Start(), run, y) && Enabled(y, NodeLogin)
    requires Reaches(Step(y, NodeLogin), more, t) && !Reboots(more) && t.nodeSession == t.hubSession
    requires t.hub.tx < FCNT_LIMIT - 1 && t.hub.tx < t.node.s.rx + FORWARD_WINDOW
    ensures var f := NextFrame(t, cmd);
            var ran := Delivering(Issuing(t, cmd), f, nowUs, lands);
            var done := Hearing(ran, Ack(f.session, f.id, nowUs, false));
            && ran.ran == t.ran + [Ran(f, nowUs)] && ran.acks == t.acks + [Ack(f.session, f.id, nowUs, false)]
            && done.delivered == t.delivered + [f] && done.slot == NoCommand
  {
    AfterLogin(run, y, more, t);
    IssuedRuns(t, cmd, nowUs, lands);
    IssueTakesTheSlot(t, cmd);
    RunIsAckedAndDone(Issuing(t, cmd), NextFrame(t, cmd), nowUs, lands);
  }

  /** An ack, first or repeated, completes exactly the command whose frame it names. */
  lemma AckCompletesIff(y: System, ack: Ack)
    ensures var t := Hearing(y, ack);
            if y.slot.InFlight? && y.slot.frame.session == ack.session && y.slot.frame.id == ack.id
            then t == y.(slot := NoCommand, delivered := y.delivered + [y.slot.frame]) else t == y
  {
  }

  /** Unanswered, with neither a login pending nor a short wait: four times sent again, each
      time the same frame, and given up at the fifth expiry. */
  lemma SilenceIsRetried(y: System, f: Frame, n: u8)
    requires y.slot == InFlight(f, n) && n <= 4
    ensures var t := Expiring(y, false, false);
            && t.slot == (if n < 4 then InFlight(f, n + 1) else NoCommand)
            && t.air == y.air + (if n < 4 then {f} else {}) && t.delivered == y.delivered
  {
  }

  /** A pending login defers the frame, a missed short wait sends it again; neither costs a
      retry. */
  lemma FreeExpiries(y: System, f: Frame, n: u8, shortWait: bool)
    requires y.slot == InFlight(f, n) && n <= 4
    ensures Expiring(y, true, shortWait) == y
    ensures Expiring(y, false, true) == y.(air := y.air + {f})
  {
  }
}
