/**
 Whole runs of one sequencer with its flash: allocations, receptions, slow
 snapshot writes, session restarts and crashes in any order.

 `sent` and `took` list the ids handed out and accepted in the current session,
 across crashes; safety is that neither list repeats an id.
 */
module SequencerRuns {
  import opened Machine
  import opened Sequencer

  datatype World = World(
    s: State,
    flash: Snapshot,                // what a restore will read
    writing: Option<Snapshot>,      // the snapshot of the slow write under way
    sent: seq<Fcnt>,
    took: seq<Fcnt>,
    base: int)                      // tx of this boot and session before its first allocation

  datatype Event =
    | Allocation(lands: bool)                       // lands: the margin write, if asked for, lands
    | Reception(fcnt: Fcnt, nowUs: int, lands: bool)
    | BeginWrite
    | LandWrite
    | LoseWrite
    | NewSession
    | Crash(writeBack: bool)        // reboot; the caller writes the restored pair back

  function Boot(cfg: Config): World {
    World(Initial(cfg), Snapshot(0, 0), None, [], [], 0)
  }

  /** A hook that wrote (tx, rx) and said so, or one whose write failed. */
  function Live(s: State): Snapshot {
    Snapshot(s.tx, s.rx)
  }

  predicate CommitWrites(s: State, fcnt: Fcnt) {
    Check(s, fcnt) && fcnt > s.rx && (RxPersistDue(MoveMark(s, fcnt)) || TxPersistDue(s))
  }

  /** The reception moves the mark a full margin past the persisted one. */
  predicate MarginWrites(s: State, fcnt: Fcnt) {
    Check(s, fcnt) && fcnt > s.rx && RxPersistDue(MoveMark(s, fcnt))
  }

  /** One write at a time: a hook's own write lands only when no slow one runs. */
  predicate Enabled(w: World, e: Event) {
    match e
    case Allocation(lands) => lands ==> w.writing.None?
    case Reception(_, _, lands) => lands ==> w.writing.None?
    case BeginWrite => w.writing.None?
    case LandWrite => w.writing.Some?
    case LoseWrite => w.writing.Some?
    case _ => true
  }

  function Allocating(w: World, lands: bool): World {
    var h := HookFor(lands, Wrap32(w.s.tx + 1), w.s.rx);
    var (s, a) := Allocate(w.s, h);
    w.(s := s,
       flash := if AllocateWrites(w.s) && lands then h.noted.value else w.flash,
       sent := if a.status.Ok? then w.sent + [a.fcnt] else w.sent)
  }

  function Receiving(w: World, fcnt: Fcnt, nowUs: int, lands: bool): World {
    var h := HookFor(lands, w.s.tx, fcnt);
    var (s, v) := Commit(w.s, fcnt, nowUs, h, h);
    w.(s := s,
       flash := if CommitWrites(w.s, fcnt) && lands then Live(s) else w.flash,
       took := if v.Rejected? then w.took else w.took + [fcnt])
  }

  function Crashing(w: World, writeBack: bool): World {
    var s := Restore(w.s, w.flash);
    w.(s := s, flash := if writeBack then Live(s) else w.flash, writing := None, base := s.tx)
  }

  function Step(w: World, e: Event): World
    requires Enabled(w, e)
  {
    match e
    case Allocation(lands) => Allocating(w, lands)
    case Reception(fcnt, nowUs, lands) => Receiving(w, fcnt, nowUs, lands)
    case BeginWrite => w.(writing := Some(Live(w.s)))
    case LandWrite =>
      w.(s := AfterHook(w.s, Hook(w.writing, true)), flash := w.writing.value, writing := None)
    case LoseWrite => w.(writing := None)
    case NewSession => w.(s := Reset(w.s), sent := [], took := [], base := 0)
    case Crash(writeBack) => Crashing(w, writeBack)
  }

  ghost predicate Safe(w: World) {
    Distinct(w.sent) && Distinct(w.took)
  }

  /** The live counters are still within the margins a restore adds to `saved`. */
  predicate WithinMargins(s: State, saved: Snapshot) {
    s.tx <= saved.tx + s.cfg.txMargin && s.rx <= saved.rx + s.cfg.rxMargin
  }

  /** What the theorems assume of each event: a slow write is only recorded while
      the live counters are within its margins; a receive-margin write asked for by
      a reception lands (an overdue transmit snapshot need not); a boot writes the
      restored pair back and its counters do not pass 2^32. */
  predicate Guarded(w: World, e: Event)
    requires Enabled(w, e)
  {
    match e
    case Reception(fcnt, _, lands) => MarginWrites(w.s, fcnt) ==> lands
    case LandWrite => WithinMargins(w.s, w.writing.value)
    case Crash(writeBack) =>
      writeBack && w.flash.tx + w.s.cfg.txMargin < U32_MOD && w.flash.rx + w.s.cfg.rxMargin < U32_MOD
    case _ => true
  }

  ghost predicate TxInv(w: World) {
    && w.s.persistedTx == w.flash.tx
    && w.s.tx <= w.flash.tx + w.s.cfg.txMargin
    && 0 <= w.base <= w.s.tx
    && (forall i :: 0 <= i < |w.sent| ==> 0 < w.sent[i] <= w.s.tx)
    && (forall i, j :: 0 <= i < j < |w.sent| ==> w.sent[i] < w.sent[j])
    && (forall x: u32 :: w.base < x <= w.s.tx ==> x in w.sent)
    && (w.writing.Some? ==> w.base <= w.writing.value.tx + w.s.cfg.txMargin)
  }

  /** Some accepted id is one forward jump above `mark`. */
  ghost predicate Replayable(w: World, mark: int) {
    exists x :: x in w.took && mark < x <= mark + FORWARD_WINDOW
  }

  ghost predicate RxInv(w: World) {
    && w.s.persistedRx == w.flash.rx
    && w.s.rx <= w.flash.rx + w.s.cfg.rxMargin
    && Distinct(w.took)
    && (forall x :: x in w.took ==> x <= w.s.rx)
    && (forall n :: 0 <= n < 64 && n <= w.s.rx && w.s.rx - n in w.took ==> w.s.seen[n])
    && (w.writing.Some? && w.s.rx > w.writing.value.rx + w.s.cfg.rxMargin ==>
          Replayable(w, w.writing.value.rx + w.s.cfg.rxMargin))
  }

  ghost predicate Inv(w: World) {
    TxInv(w) && RxInv(w)
  }

  lemma AllocationKeepsInv(w: World, lands: bool)
    requires Inv(w) && Enabled(w, Allocation(lands))
    ensures Inv(Allocating(w, lands))
  {
    var t := Allocating(w, lands);
    assert t.sent == w.sent || t.sent == w.sent + [w.s.tx + 1];
    forall x: u32 | t.base < x <= t.s.tx
      ensures x in t.sent
    {
      if x == t.s.tx && t.sent != w.sent {
        assert t.sent[|w.sent|] == x;
      } else {
        assert x in w.sent;
      }
    }
  }

  /** An id already taken is refused, whichever policy. */
  lemma TakenIsRefused(w: World, fcnt: Fcnt)
    requires RxInv(w) && fcnt in w.took
    ensures !Check(w.s, fcnt)
  {
    var n := w.s.rx - fcnt;
    assert w.s.rx - n in w.took;
  }

  lemma BitmapCovers(w: World, fcnt: Fcnt, nowUs: int, lands: bool)
    requires RxInv(w) && Check(w.s, fcnt)
    ensures var t := Receiving(w, fcnt, nowUs, lands);
            forall n :: 0 <= n < 64 && n <= t.s.rx && t.s.rx - n in t.took ==> t.s.seen[n]
  {
    var t := Receiving(w, fcnt, nowUs, lands);
    forall n | 0 <= n < 64 && n <= t.s.rx && t.s.rx - n in t.took
      ensures t.s.seen[n]
    {
      assert t.s.rx - n in w.took || t.s.rx - n == fcnt;
      if fcnt > w.s.rx && n >= fcnt - w.s.rx {
        var m := n - (fcnt - w.s.rx);
        assert w.s.rx - m == t.s.rx - n;
        assert t.s.seen[n] == w.s.seen[m];
      } else if fcnt <= w.s.rx {
        assert Wrap32(w.s.rx - fcnt) == w.s.rx - fcnt;
        assert t.s.rx - n == w.s.rx - n;
      }
    }
  }

  lemma ReceptionKeepsTxInv(w: World, fcnt: Fcnt, nowUs: int, lands: bool)
    requires TxInv(w) && Enabled(w, Reception(fcnt, nowUs, lands))
    ensures TxInv(Receiving(w, fcnt, nowUs, lands))
  {
    var t := Receiving(w, fcnt, nowUs, lands);
    assert t.s.tx == w.s.tx && t.s.cfg == w.s.cfg;
  }

  lemma ReceptionKeepsMark(w: World, fcnt: Fcnt, nowUs: int, lands: bool)
    requires RxInv(w) && Enabled(w, Reception(fcnt, nowUs, lands)) && Guarded(w, Reception(fcnt, nowUs, lands))
    ensures var t := Receiving(w, fcnt, nowUs, lands);
            t.s.persistedRx == t.flash.rx && t.s.rx <= t.flash.rx + t.s.cfg.rxMargin
  {
    assert Wrap32(fcnt - w.s.persistedRx)
        == if fcnt >= w.s.persistedRx then fcnt - w.s.persistedRx else fcnt - w.s.persistedRx + U32_MOD;
  }

  lemma ReceptionKeepsWitness(w: World, fcnt: Fcnt, nowUs: int, lands: bool)
    requires RxInv(w) && Check(w.s, fcnt) && w.writing.Some?
    ensures var t := Receiving(w, fcnt, nowUs, lands);
            t.s.rx > w.writing.value.rx + w.s.cfg.rxMargin ==> Replayable(t, w.writing.value.rx + w.s.cfg.rxMargin)
  {
    var t := Receiving(w, fcnt, nowUs, lands);
    var floor := w.writing.value.rx + w.s.cfg.rxMargin;
    assert fcnt in t.took;
    if w.s.rx > floor {
      var x :| x in w.took && floor < x <= floor + FORWARD_WINDOW;
      assert x in t.took;
    }
  }

  lemma ReceptionKeepsRxInv(w: World, fcnt: Fcnt, nowUs: int, lands: bool)
    requires RxInv(w) && Enabled(w, Reception(fcnt, nowUs, lands)) && Guarded(w, Reception(fcnt, nowUs, lands))
    ensures RxInv(Receiving(w, fcnt, nowUs, lands))
  {
    if Check(w.s, fcnt) {
      if fcnt in w.took {
        TakenIsRefused(w, fcnt);
      }
      DistinctAppend(w.took, fcnt);
      BitmapCovers(w, fcnt, nowUs, lands);
      ReceptionKeepsMark(w, fcnt, nowUs, lands);
      if w.writing.Some? {
        ReceptionKeepsWitness(w, fcnt, nowUs, lands);
      }
    }
  }

  lemma StepKeepsInv(w: World, e: Event)
    requires Inv(w) && Enabled(w, e) && Guarded(w, e)
    ensures Inv(Step(w, e)) && Step(w, e).s.cfg == w.s.cfg
  {
    match e
    case Allocation(lands) => AllocationKeepsInv(w, lands);
    case Reception(fcnt, nowUs, lands) =>
      ReceptionKeepsTxInv(w, fcnt, nowUs, lands);
      ReceptionKeepsRxInv(w, fcnt, nowUs, lands);
    case Crash(_) =>
      assert Wrap32(w.flash.tx + w.s.cfg.txMargin) == w.flash.tx + w.s.cfg.txMargin;
      assert Wrap32(w.flash.rx + w.s.cfg.rxMargin) == w.flash.rx + w.s.cfg.rxMargin;
    case _ =>
  }

  ghost predicate RunOk(w: World, run: seq<Event>)
    decreases |run|
  {
    run == [] || (Enabled(w, run[0]) && Guarded(w, run[0]) && RunOk(Step(w, run[0]), run[1..]))
  }

  ghost function Final(w: World, run: seq<Event>): World
    requires RunOk(w, run)
    decreases |run|
  {
    if run == [] then w else Final(Step(w, run[0]), run[1..])
  }

  lemma {:induction false} RunKeepsInv(w: World, run: seq<Event>)
    requires Inv(w) && RunOk(w, run)
    ensures Inv(Final(w, run))
    decreases |run|
  {
    if run != [] {
      StepKeepsInv(w, run[0]);
      RunKeepsInv(Step(w, run[0]), run[1..]);
    }
  }

  /** No run hands out an id twice in one session, or accepts one twice. */
  lemma NoIdTwice(cfg: Config, run: seq<Event>)
    requires RunOk(Boot(cfg), run)
    ensures Safe(Final(Boot(cfg), run))
  {
    RunKeepsInv(Boot(cfg), run);
  }

  // ---- within one session and boot the window is exact -----------------------

  function Ids(took: seq<Fcnt>): (ids: set<u32>)
    ensures forall f: u32 :: f in ids <==> f < FCNT_LIMIT && f in took
  {
    set f: Fcnt | f in took
  }

  /** The window admits exactly what it has not taken: no crash has burned any of it. */
  ghost predicate Exact(w: World) {
    && Represents(w.s, Ids(w.took))
    && (w.s.rx == 0 || (w.s.rx < FCNT_LIMIT && w.s.rx in w.took))
    && (w.took != [] ==> w.s.lastAccepted == w.took[|w.took| - 1])
  }

  ghost predicate NoCrash(run: seq<Event>) {
    forall e <- run :: !e.Crash?
  }

  lemma ReceptionKeepsExact(w: World, fcnt: Fcnt, nowUs: int, lands: bool)
    requires w.s.cfg.policy.SlidingWindow? && Exact(w)
    ensures Exact(Receiving(w, fcnt, nowUs, lands)) && Receiving(w, fcnt, nowUs, lands).s.cfg == w.s.cfg
  {
    var h := HookFor(lands, w.s.tx, fcnt);
    CommitAddsToSet(w.s, Ids(w.took), fcnt, nowUs, h, h);
    var t := Receiving(w, fcnt, nowUs, lands);
    if Check(w.s, fcnt) {
      assert Ids(t.took) == Ids(w.took) + {fcnt};
    }
  }

  lemma StepKeepsExact(w: World, e: Event)
    requires w.s.cfg.policy.SlidingWindow? && Exact(w) && Enabled(w, e) && !e.Crash?
    ensures Exact(Step(w, e)) && Step(w, e).s.cfg == w.s.cfg
  {
    match e
    case Reception(fcnt, nowUs, lands) => ReceptionKeepsExact(w, fcnt, nowUs, lands);
    case NewSession =>
      ResetWindowIsEmpty(w.s, 0);
      assert Ids([]) == {};
    case _ =>
  }

  lemma {:induction false} RunKeepsExact(w: World, run: seq<Event>)
    requires w.s.cfg.policy.SlidingWindow? && Exact(w) && RunOk(w, run) && NoCrash(run)
    ensures Exact(Final(w, run)) && Final(w, run).s.cfg == w.s.cfg
    decreases |run|
  {
    if run != [] {
      assert run[0] in run && forall e <- run[1..] :: e in run;
      StepKeepsExact(w, run[0]);
      RunKeepsExact(Step(w, run[0]), run[1..]);
    }
  }

  /** From the start of a session to the next crash, whatever came before: an id is admitted
      exactly when it is in reach of the highest one taken and has not been taken itself. */
  lemma AdmittedIff(w: World, run: seq<Event>, fcnt: Fcnt)
    requires w.s.cfg.policy.SlidingWindow? && RunOk(Step(w, NewSession), run) && NoCrash(run)
    ensures var t := Final(Step(w, NewSession), run);
            && (Check(t.s, fcnt) <==> fcnt !in t.took && InReach(t.s.rx, fcnt))
            && (forall f <- t.took :: f <= t.s.rx) && (t.s.rx == 0 || t.s.rx in t.took)
            && (t.took != [] ==> t.s.lastAccepted == t.took[|t.took| - 1])
  {
    ResetWindowIsEmpty(w.s, 0);
    assert Ids([]) == {};
    RunKeepsExact(Step(w, NewSession), run);
    var t := Final(Step(w, NewSession), run);
    CheckIsMembership(t.s, Ids(t.took), fcnt);
    forall f | f in t.took
      ensures f <= t.s.rx
    {
      assert f in Ids(t.took);
    }
  }

  /** No slow write is recorded. */
  ghost predicate NoLanding(run: seq<Event>) {
    forall e <- run :: !e.LandWrite?
  }

  /** Where no slow write lands, a reception never has an overdue transmit snapshot to take:
      the flash is written for margins only. */
  lemma {:induction false} NoNeedlessSnapshot(w: World, run: seq<Event>)
    requires Inv(w) && RunOk(w, run) && NoLanding(run) && !TxPersistDue(w.s)
    requires 0 < w.s.cfg.txMargin <= 0x4000_0000 && w.s.tx < FCNT_LIMIT && w.s.persistedTx < FCNT_LIMIT
    requires forall e <- run :: !e.Crash?
    ensures !TxPersistDue(Final(w, run).s)
    decreases |run|
  {
    if run != [] {
      assert run[0] in run && forall e <- run[1..] :: e in run;
      StepKeepsInv(w, run[0]);
      SnapshotStaysDone(w, run[0]);
      NoNeedlessSnapshot(Step(w, run[0]), run[1..]);
    }
  }

  lemma SnapshotStaysDone(w: World, e: Event)
    requires Inv(w) && Enabled(w, e) && !e.LandWrite? && !e.Crash? && !TxPersistDue(w.s)
    requires 0 < w.s.cfg.txMargin <= 0x4000_0000 && w.s.tx < FCNT_LIMIT && w.s.persistedTx < FCNT_LIMIT
    ensures var t := Step(w, e).s;
            !TxPersistDue(t) && t.tx < FCNT_LIMIT && t.persistedTx < FCNT_LIMIT && t.cfg == w.s.cfg
  {
    match e
    case Allocation(lands) => AllocationLeavesNone(w, lands);
    case Reception(fcnt, nowUs, lands) => ReceptionLeavesNone(w, fcnt, nowUs, lands);
    case _ =>
  }

  lemma AllocationLeavesNone(w: World, lands: bool)
    requires !TxPersistDue(w.s) && 0 < w.s.cfg.txMargin <= 0x4000_0000
    requires w.s.tx < FCNT_LIMIT && w.s.persistedTx < FCNT_LIMIT
    ensures var t := Allocating(w, lands).s;
            !TxPersistDue(t) && t.tx < FCNT_LIMIT && t.persistedTx < FCNT_LIMIT && t.cfg == w.s.cfg
  {
    assert Wrap32(w.s.persistedTx + w.s.cfg.txMargin) == w.s.persistedTx + w.s.cfg.txMargin;
  }

  lemma ReceptionLeavesNone(w: World, fcnt: Fcnt, nowUs: int, lands: bool)
    requires !TxPersistDue(w.s) && 0 < w.s.cfg.txMargin <= 0x4000_0000
    requires w.s.tx < FCNT_LIMIT && w.s.persistedTx < FCNT_LIMIT
    ensures var t := Receiving(w, fcnt, nowUs, lands).s;
            !TxPersistDue(t) && t.tx < FCNT_LIMIT && t.persistedTx < FCNT_LIMIT && t.cfg == w.s.cfg
  {
    assert Wrap32(w.s.persistedTx + w.s.cfg.txMargin) == w.s.persistedTx + w.s.cfg.txMargin;
  }

  /** Where one is overdue, a whole margin behind or more, an accepted id past the mark takes
      it, if the write lands. */
  lemma OverdueIsTaken(w: World, fcnt: Fcnt, nowUs: int)
    requires w.s.persistedTx + w.s.cfg.txMargin <= w.s.tx && Check(w.s, fcnt) && fcnt > w.s.rx
    ensures var t := Receiving(w, fcnt, nowUs, true);
            t.s.persistedTx == t.flash.tx == w.s.tx && t.s.persistedRx == t.flash.rx == fcnt
  {
    assert Wrap32(w.s.persistedTx + w.s.cfg.txMargin) == w.s.persistedTx + w.s.cfg.txMargin;
  }

  /** When a reception asks for a write: the mark it moves to is a whole margin above the
      persisted one, or below it, as after a session restart. */
  lemma MarginWritesIff(s: State, fcnt: Fcnt)
    requires 0 < s.cfg.rxMargin <= 0x4000_0000 && s.persistedRx < FCNT_LIMIT
    ensures MarginWrites(s, fcnt)
       <==> Check(s, fcnt) && fcnt > s.rx && (fcnt >= s.persistedRx + s.cfg.rxMargin || fcnt < s.persistedRx)
  {
    assert Wrap32(fcnt - s.persistedRx)
        == if fcnt >= s.persistedRx then fcnt - s.persistedRx else fcnt - s.persistedRx + U32_MOD;
  }

  // ---- the guard on a slow write is exact ----------------------------------

  /** What the flash holds once the write under way has landed and the node has
      rebooted from it. */
  function AfterLandingAndCrash(w: World): World
    requires w.writing.Some?
  {
    Crashing(Step(w, LandWrite), true)
  }

  lemma OutrunTxIsUnsafe(w: World)
    requires Inv(w) && w.writing.Some? && w.s.tx > w.writing.value.tx + w.s.cfg.txMargin
    ensures !Distinct(Allocating(AfterLandingAndCrash(w), true).sent)
  {
    var c := AfterLandingAndCrash(w);
    var again := w.writing.value.tx + w.s.cfg.txMargin + 1;
    assert w.s.tx in w.sent && again in w.sent;
    assert Wrap32(again - 1) == again - 1 && c.s.tx == again - 1;
    assert Wrap32(again) == again;
    NotDistinctAppend(w.sent, again);
  }

  lemma OutrunRxIsUnsafe(w: World) returns (fcnt: Fcnt)
    requires Inv(w) && w.writing.Some? && w.s.rx > w.writing.value.rx + w.s.cfg.rxMargin
    ensures !Distinct(Receiving(AfterLandingAndCrash(w), fcnt, 0, true).took)
  {
    var mark := w.writing.value.rx + w.s.cfg.rxMargin;
    fcnt :| fcnt in w.took && mark < fcnt <= mark + FORWARD_WINDOW;
    var c := AfterLandingAndCrash(w);
    assert Wrap32(mark) == mark && c.s.rx == mark;
    assert Wrap32(mark + FORWARD_WINDOW) == mark + FORWARD_WINDOW;
    NotDistinctAppend(w.took, fcnt);
  }

  /** Recording a slow write keeps every continuation safe exactly when the live
      counters have not outrun the snapshot by more than the margins. */
  lemma SlowWriteSafeIff(w: World)
    requires Inv(w) && w.writing.Some?
    requires w.writing.value.tx + w.s.cfg.txMargin < U32_MOD && w.writing.value.rx + w.s.cfg.rxMargin < U32_MOD
    ensures WithinMargins(w.s, w.writing.value)
       <==> forall run :: RunOk(Step(w, LandWrite), run) ==> Safe(Final(Step(w, LandWrite), run))
  {
    var l := Step(w, LandWrite);
    if WithinMargins(w.s, w.writing.value) {
      StepKeepsInv(w, LandWrite);
      forall run | RunOk(l, run)
        ensures Safe(Final(l, run))
      {
        RunKeepsInv(l, run);
      }
    } else if w.s.tx > w.writing.value.tx + w.s.cfg.txMargin {
      OutrunTxIsUnsafe(w);
      TwoSteps(l, Crash(true), Allocation(true));
    } else {
      var fcnt := OutrunRxIsUnsafe(w);
      TwoSteps(l, Crash(true), Reception(fcnt, 0, true));
    }
  }

  lemma TwoSteps(w: World, e: Event, f: Event)
    requires Enabled(w, e) && Guarded(w, e)
    requires Enabled(Step(w, e), f) && Guarded(Step(w, e), f)
    ensures RunOk(w, [e, f]) && Final(w, [e, f]) == Step(Step(w, e), f)
  {
    assert [e, f][1..] == [f] && [f][1..] == [];
    assert RunOk(Step(Step(w, e), f), []);
    assert RunOk(Step(w, e), [f]);
    assert Final(Step(w, e), [f]) == Final(Step(Step(w, e), f), []);
  }

  // ---- when the guard holds by itself --------------------------------------

  /** The persisted marks do not lie above the live counters: no session has been
      restarted since the last write that landed. */
  predicate MarksAreCurrent(s: State) {
    s.persistedTx <= s.tx && s.persistedRx <= s.rx
  }

  ghost predicate StartedCurrent(w: World) {
    w.writing.Some? ==> w.s.persistedTx <= w.writing.value.tx && w.s.persistedRx <= w.writing.value.rx
  }

  /** A slow write begun while the marks are current can be recorded whenever it
      lands, whatever happened meanwhile, a session restart included. */
  lemma CurrentWritesStayGuarded(w: World, e: Event)
    requires Inv(w) && StartedCurrent(w) && Enabled(w, e)
    requires e.BeginWrite? ==> MarksAreCurrent(w.s)
    ensures StartedCurrent(Step(w, e))
    ensures e.LandWrite? ==> Guarded(w, e)
  {
  }

  // ---- the other premises are needed ---------------------------------------

  /** A boot that does not write the restored pair back: two crashes in a row
      hand out 65 twice. */
  lemma WriteBackIsNeeded()
    ensures var b := Boot(NODE_CONFIG);
            var once := Allocating(Crashing(b, false), false);
            var twice := Allocating(Crashing(once, false), false);
            once.sent == [65] && twice.sent == [65, 65]
  {
    assert Wrap32(64) == 64 && Wrap32(65) == 65 && Wrap32(128) == 128;
  }

  /** A reception whose margin write is lost: after a crash its frame is accepted again. */
  lemma MarginWriteIsNeeded()
    ensures var b := Boot(NODE_CONFIG);
            var lost := Receiving(b, 500, 0, false);
            var again := Receiving(Crashing(lost, true), 500, 0, true);
            lost.took == [500] && again.took == [500, 500]
  {
    assert Wrap32(1024) == 1024 && Wrap32(16) == 16 && Wrap32(1040) == 1040;
  }

  /** `n` allocations that ask for no write. */
  function Allocations(w: World, n: nat): (t: World)
    ensures t.writing == w.writing
  {
    if n == 0 then w else Allocating(Allocations(w, n - 1), false)
  }

  lemma {:induction false} QuietAllocations(w: World, n: nat)
    requires Inv(w) && w.s.cfg == NODE_CONFIG && w.s.tx + n < w.s.persistedTx + 64 < FCNT_LIMIT
    ensures var t := Allocations(w, n);
            Inv(t) && t.s == w.s.(tx := w.s.tx + n) && t.writing == w.writing && t.flash == w.flash
  {
    if n > 0 {
      QuietAllocations(w, n - 1);
      var t := Allocations(w, n - 1);
      AllocationKeepsInv(t, false);
      QuietAllocation(t);
    }
  }

  lemma QuietAllocation(t: World)
    requires t.s.cfg == NODE_CONFIG && t.s.tx + 1 < t.s.persistedTx + 64 < FCNT_LIMIT
    ensures var n := Allocating(t, false);
            n.s == t.s.(tx := t.s.tx + 1) && n.writing == t.writing && n.flash == t.flash
  {
    assert Wrap32(t.s.persistedTx + 64) == t.s.persistedTx + 64;
  }

  /** The claim that a restart without a write only delays the next one does not
      survive a slow write: in a session restarted over a persisted mark of 2 or
      more, 65 ids go out while the snapshot (0, 0) is being written, and after a
      crash id 65 goes out again. */
  lemma RestartThenSlowWriteIsUnsafe(w: World)
    requires Inv(w) && w.s.cfg == NODE_CONFIG && w.writing.None?
    requires 2 <= w.s.persistedTx && w.s.persistedTx + 64 < FCNT_LIMIT
    ensures var begun := Step(Step(w, NewSession), BeginWrite);
            !Safe(Allocating(AfterLandingAndCrash(Allocations(begun, 65)), true))
  {
    var restarted := Step(w, NewSession);
    StepKeepsInv(w, NewSession);
    assert restarted.writing.None?;
    var begun := Step(restarted, BeginWrite);
    StepKeepsInv(restarted, BeginWrite);
    QuietAllocations(begun, 65);
    OutrunTxIsUnsafe(Allocations(begun, 65));
  }
}
