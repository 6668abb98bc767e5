/**
 The loop task and three timer streams sharing one downlink counter while logins
 come and go. A timer callback is four separate moments (read the key epoch, take
 a counter, seal, check the seal), and the loop may act between any two of them.

 `passed` lists every sealed frame let through as (key epoch, counter): the input
 of its CTR block. It never repeats a pair.
 */
module FcntRuns {
  import opened Machine
  import opened FcntBlocks

  const STREAMS: nat := 3

  datatype Timer =
    | Resting
    | EpochRead(epoch: u32)
    | Took(fcnt: u32)
    | SealedAs(fcnt: u32, epoch: u32)

  datatype Hub = Hub(
    tx: u32,
    epoch: u32,
    keyed: bool,                 // live session keys exist: a seal succeeds
    challenge: bool,             // a login challenge is pending
    blocks: seq<Block>,
    timers: seq<Timer>,
    passed: seq<(u32, u32)>)

  datatype Event =
    | LoopFrame(lands: bool)             // allocate and seal, on the loop; whether a write lands
    | Skip(n: u32)                       // the boot margin
    | Reserve(j: nat, n: u32, lands: bool)
    | ReadEpoch(j: nat)
    | TakeCounter(j: nat)
    | SealFrame(j: nat)
    | CheckSeal(j: nat)
    | NewChallenge                       // a fresh LOGIN: the old keys are destroyed
    | DropBlocks
    | RestartCounters
    | SetSessionId(changed: bool)
    | InstallKeys                        // the candidate proved itself; the challenge is over
    | NodeRegistered                     // keys destroyed, next login mints a fresh nonce
    | NodeSlept                          // next login mints a fresh nonce

  function Idle(): Hub {
    Hub(0, 0, false, false, [NO_BLOCK, NO_BLOCK, NO_BLOCK], [Resting, Resting, Resting], [])
  }

  predicate Shaped(h: Hub) {
    |h.blocks| == STREAMS && |h.timers| == STREAMS
  }

  /** Program order of each task, and the premises: a block is granted only while its
      stream has no callback running, and the 32-bit epoch has not turned over. */
  predicate Enabled(h: Hub, e: Event) {
    && Shaped(h) && h.epoch < U32_MOD - 1
    && match e
       case Skip(n) => h.tx + n < CTR_LIMIT
       case Reserve(j, _, _) => j < STREAMS && h.timers[j].Resting?
       case ReadEpoch(j) => j < STREAMS && h.timers[j].Resting?
       case TakeCounter(j) => j < STREAMS && h.timers[j].EpochRead?
       case SealFrame(j) => j < STREAMS && h.timers[j].Took?
       case CheckSeal(j) => j < STREAMS && h.timers[j].SealedAs?
       case NewChallenge => !h.challenge
       case RestartCounters => h.challenge
       case SetSessionId(_) => h.challenge
       case _ => true
  }

  /** An allocation gives nothing when the space is spent or its write does not land. */
  predicate Allocates(h: Hub, lands: bool) {
    h.tx < CTR_LIMIT - 1 && lands
  }

  function Looping(h: Hub, lands: bool): Hub {
    if !Allocates(h, lands) then h
    else h.(tx := h.tx + 1, passed := if h.keyed then h.passed + [(h.epoch, h.tx + 1)] else h.passed)
  }

  function Reserving(h: Hub, j: nat, n: u32, lands: bool): Hub
    requires Shaped(h) && j < STREAMS
  {
    if n == 0 || !Allocates(h, lands) then h.(blocks := h.blocks[j := Invalidate(h.blocks[j])])
    else
      var last := BlockEnd(h.tx + 1, n);
      h.(tx := last, blocks := h.blocks[j := Grant(h.tx + 1, last, h.epoch)])
  }

  function Taking(h: Hub, j: nat): Hub
    requires Shaped(h) && j < STREAMS && h.timers[j].EpochRead?
  {
    var (b, c) := Take(h.blocks[j], h.timers[j].epoch);
    h.(blocks := h.blocks[j := b], timers := h.timers[j := if c == 0 then Resting else Took(c)])
  }

  function Checking(h: Hub, j: nat): Hub
    requires Shaped(h) && j < STREAMS && h.timers[j].SealedAs?
  {
    var t := h.timers[j];
    h.(timers := h.timers[j := Resting],
       passed := if t.epoch == h.blocks[j].epoch then h.passed + [(t.epoch, t.fcnt)] else h.passed)
  }

  function Step(h: Hub, e: Event): Hub
    requires Enabled(h, e)
  {
    match e
    case LoopFrame(lands) => Looping(h, lands)
    case Skip(n) => h.(tx := h.tx + n)
    case Reserve(j, n, lands) => Reserving(h, j, n, lands)
    case ReadEpoch(j) => h.(timers := h.timers[j := EpochRead(h.epoch)])
    case TakeCounter(j) => Taking(h, j)
    case SealFrame(j) =>
      h.(timers := h.timers[j := if h.keyed then SealedAs(h.timers[j].fcnt, h.epoch) else Resting])
    case CheckSeal(j) => Checking(h, j)
    case NewChallenge => h.(challenge := true, keyed := false, epoch := h.epoch + 1)
    case DropBlocks => h.(blocks := [Invalidate(h.blocks[0]), Invalidate(h.blocks[1]), Invalidate(h.blocks[2])])
    case RestartCounters => h.(tx := 0)
    case SetSessionId(changed) => if changed then h.(epoch := h.epoch + 1) else h
    case InstallKeys => h.(keyed := true, challenge := false, epoch := h.epoch + 1)
    case NodeRegistered => h.(keyed := false, challenge := false, epoch := h.epoch + 1)
    case NodeSlept => h.(challenge := false)
  }

  /** Stream j can still pass counter c under epoch e. */
  ghost predicate Owns(h: Hub, j: int, e: u32, c: u32)
    requires Shaped(h) && 0 <= j < STREAMS
  {
    && e == h.blocks[j].epoch
    && (h.timers[j] == SealedAs(c, e)
        || (h.keyed && e == h.epoch && (InBlock(h.blocks[j], c) || h.timers[j] == Took(c))))
  }

  ghost predicate BlocksInv(h: Hub)
    requires Shaped(h)
  {
    forall j :: 0 <= j < STREAMS ==>
      && WellFormed(h.blocks[j]) && h.blocks[j].epoch <= h.epoch
      && (forall c: u32 :: InBlock(h.blocks[j], c) ==>
           h.timers[j] != Took(c) && h.timers[j] != SealedAs(c, h.blocks[j].epoch))
      && (h.timers[j].SealedAs? ==> h.timers[j].epoch <= h.epoch && (h.timers[j].epoch == h.epoch ==> h.keyed))
  }

  ghost predicate OwnInv(h: Hub)
    requires Shaped(h)
  {
    && (forall j, e: u32, c: u32 :: 0 <= j < STREAMS && Owns(h, j, e, c) ==>
          (e, c) !in h.passed && (e == h.epoch ==> c <= h.tx))
    && (forall j, k, e: u32, c: u32 :: 0 <= j < STREAMS && 0 <= k < STREAMS && Owns(h, j, e, c) && Owns(h, k, e, c) ==>
         j == k)
  }

  ghost predicate PassedInv(h: Hub) {
    && Distinct(h.passed)
    && (forall i :: 0 <= i < |h.passed| ==>
          h.passed[i].0 <= h.epoch && (h.passed[i].0 == h.epoch ==> h.keyed && h.passed[i].1 <= h.tx))
  }

  ghost predicate Inv(h: Hub) {
    Shaped(h) && h.tx < CTR_LIMIT && (h.challenge ==> !h.keyed) && BlocksInv(h) && OwnInv(h) && PassedInv(h)
  }

  /** Steps that hand nothing out: what each stream owns can only shrink. */
  lemma NothingNewKeepsOwn(h: Hub, g: Hub)
    requires Inv(h) && Shaped(g)
    requires forall j, e: u32, c: u32 :: 0 <= j < STREAMS && Owns(g, j, e, c) ==>
               Owns(h, j, e, c) && (e == g.epoch ==> c <= g.tx)
    requires g.passed == h.passed
    ensures OwnInv(g)
  {
  }

  lemma LoopKeepsInv(h: Hub, lands: bool)
    requires Inv(h)
    ensures Inv(Looping(h, lands))
  {
    var g := Looping(h, lands);
    if g.passed != h.passed {
      DistinctAppend(h.passed, (h.epoch, h.tx + 1));
    }
    forall j, e: u32, c: u32 | 0 <= j < STREAMS && Owns(g, j, e, c)
      ensures (e, c) !in g.passed && (e == g.epoch ==> c <= g.tx)
    {
      assert Owns(h, j, e, c);
    }
    forall j, k, e: u32, c: u32 | 0 <= j < STREAMS && 0 <= k < STREAMS && Owns(g, j, e, c) && Owns(g, k, e, c)
      ensures j == k
    {
      assert Owns(h, j, e, c) && Owns(h, k, e, c);
    }
  }

  lemma BlockEndBounds(tx: u32, n: u32)
    requires n > 0 && tx < CTR_LIMIT - 1
    ensures tx + 1 <= BlockEnd(tx + 1, n) < CTR_LIMIT
  {
  }

  lemma ReserveKeepsInv(h: Hub, j: nat, n: u32, lands: bool)
    requires Inv(h) && j < STREAMS && h.timers[j].Resting?
    ensures Inv(Reserving(h, j, n, lands))
  {
    var g := Reserving(h, j, n, lands);
    if n > 0 && h.tx < CTR_LIMIT - 1 {
      BlockEndBounds(h.tx, n);
    }
    forall i, e: u32, c: u32 | 0 <= i < STREAMS && Owns(g, i, e, c)
      ensures (e, c) !in g.passed && (e == g.epoch ==> c <= g.tx)
      ensures i != j ==> Owns(h, i, e, c)
      ensures i == j ==> e == h.epoch && c > h.tx
    {
      if i != j {
        assert Owns(h, i, e, c);
      }
    }
  }

  lemma TakeKeepsInv(h: Hub, j: nat)
    requires Inv(h) && j < STREAMS && h.timers[j].EpochRead?
    ensures Inv(Taking(h, j))
  {
    var g := Taking(h, j);
    forall i, e: u32, c: u32 | 0 <= i < STREAMS && Owns(g, i, e, c)
      ensures Owns(h, i, e, c)
    {
      if i != j {
        assert g.blocks[i] == h.blocks[i] && g.timers[i] == h.timers[i];
      }
    }
    NothingNewKeepsOwn(h, g);
  }

  lemma SealKeepsInv(h: Hub, j: nat)
    requires Inv(h) && Enabled(h, SealFrame(j))
    ensures Inv(Step(h, SealFrame(j)))
  {
    var g := Step(h, SealFrame(j));
    forall i, e: u32, c: u32 | 0 <= i < STREAMS && Owns(g, i, e, c)
      ensures Owns(h, i, e, c)
    {
      if i != j {
        assert g.blocks[i] == h.blocks[i] && g.timers[i] == h.timers[i];
      }
    }
    NothingNewKeepsOwn(h, g);
  }

  lemma CheckKeepsInv(h: Hub, j: nat)
    requires Inv(h) && Enabled(h, CheckSeal(j))
    ensures Inv(Checking(h, j))
  {
    var g := Checking(h, j);
    var t := h.timers[j];
    if t.epoch == h.blocks[j].epoch {
      assert Owns(h, j, t.epoch, t.fcnt);
      DistinctAppend(h.passed, (t.epoch, t.fcnt));
    }
    forall i, e: u32, c: u32 | 0 <= i < STREAMS && Owns(g, i, e, c)
      ensures Owns(h, i, e, c)
      ensures (e, c) !in g.passed
    {
      if i != j {
        assert g.blocks[i] == h.blocks[i] && g.timers[i] == h.timers[i];
      }
      assert Owns(h, i, e, c);
    }
    forall i, k, e: u32, c: u32 | 0 <= i < STREAMS && 0 <= k < STREAMS && Owns(g, i, e, c) && Owns(g, k, e, c)
      ensures i == k
    {
      assert Owns(h, i, e, c) && Owns(h, k, e, c);
    }
  }

  /** The key epoch moves: no stream can still take under it. */
  lemma MovingEpochKeepsInv(h: Hub, e: Event)
    requires Inv(h) && Enabled(h, e)
    requires e.NewChallenge? || e.InstallKeys? || e.NodeRegistered? || (e.SetSessionId? && e.changed)
    ensures Inv(Step(h, e))
  {
    var g := Step(h, e);
    forall j, ep: u32, c: u32 | 0 <= j < STREAMS && Owns(g, j, ep, c)
      ensures Owns(h, j, ep, c) && ep < g.epoch
    {
      assert ep == h.blocks[j].epoch <= h.epoch;
    }
    NothingNewKeepsOwn(h, g);
  }

  lemma QuietKeepsInv(h: Hub, e: Event)
    requires Inv(h) && Enabled(h, e)
    requires e.Skip? || e.ReadEpoch? || e.DropBlocks? || e.RestartCounters? || e.NodeSlept?
    ensures Inv(Step(h, e))
  {
    var g := Step(h, e);
    forall j, ep: u32, c: u32 | 0 <= j < STREAMS && Owns(g, j, ep, c)
      ensures Owns(h, j, ep, c) && (ep == g.epoch ==> c <= g.tx)
    {
      assert Owns(h, j, ep, c);
      if e.RestartCounters? {
        assert !h.keyed && h.timers[j] == SealedAs(c, ep);
      }
    }
    NothingNewKeepsOwn(h, g);
  }

  lemma StepKeepsInv(h: Hub, e: Event)
    requires Inv(h) && Enabled(h, e)
    ensures Inv(Step(h, e))
  {
    match e
    case LoopFrame(lands) => LoopKeepsInv(h, lands);
    case Reserve(j, n, lands) => ReserveKeepsInv(h, j, n, lands);
    case TakeCounter(j) => TakeKeepsInv(h, j);
    case SealFrame(j) => SealKeepsInv(h, j);
    case CheckSeal(j) => CheckKeepsInv(h, j);
    case NewChallenge => MovingEpochKeepsInv(h, e);
    case InstallKeys => MovingEpochKeepsInv(h, e);
    case NodeRegistered => MovingEpochKeepsInv(h, e);
    case SetSessionId(changed) =>
      if changed {
        MovingEpochKeepsInv(h, e);
      }
    case _ => QuietKeepsInv(h, e);
  }

  ghost predicate Reaches(h: Hub, run: seq<Event>, g: Hub)
    decreases |run|
  {
    if run == [] then h == g else Enabled(h, run[0]) && Reaches(Step(h, run[0]), run[1..], g)
  }

  lemma {:induction false} RunKeepsInv(h: Hub, run: seq<Event>, g: Hub)
    requires Inv(h) && Reaches(h, run, g)
    ensures Inv(g)
    decreases |run|
  {
    if run != [] {
      StepKeepsInv(h, run[0]);
      RunKeepsInv(Step(h, run[0]), run[1..], g);
    }
  }

  /** Every interleaving: no counter goes out twice under one key epoch. */
  lemma CountersAreUsedOnce(run: seq<Event>, h: Hub)
    requires Reaches(Idle(), run, h)
    ensures Distinct(h.passed)
  {
    RunKeepsInv(Idle(), run, h);
  }

  /** In a live session the streams' blocks are disjoint from each other, from every
      counter already used and from every id the loop will allocate. */
  lemma BlocksAreDisjoint(run: seq<Event>, h: Hub, j: nat, k: nat, c: u32)
    requires Reaches(Idle(), run, h) && h.keyed
    requires Shaped(h) && j < STREAMS && k < STREAMS
    requires InBlock(h.blocks[j], c) && h.blocks[j].epoch == h.epoch
    ensures c <= h.tx && (h.epoch, c) !in h.passed
    ensures j != k && h.blocks[k].epoch == h.epoch ==> !InBlock(h.blocks[k], c)
  {
    RunKeepsInv(Idle(), run, h);
    assert Owns(h, j, h.epoch, c);
    assert h.blocks[k].epoch == h.epoch && InBlock(h.blocks[k], c) ==> Owns(h, k, h.epoch, c);
  }

  // ---- frames do get through ------------------------------------------------

  /** A login from any state: the node slept or not, a challenge pending or not. */
  function LoginAgain(): seq<Event> {
    [NodeSlept, NewChallenge, RestartCounters, InstallKeys, LoopFrame(true)]
  }

  lemma LoginSteps(h: Hub) returns (h1: Hub, h4: Hub)
    requires Inv(h) && h.epoch < U32_MOD - 5
    ensures h1 == Step(h, NodeSlept) && Enabled(h1, NewChallenge)
    ensures h4 == Step(Step(Step(h1, NewChallenge), RestartCounters), InstallKeys)
    ensures h4 == h.(tx := 0, epoch := h.epoch + 2, keyed := true, challenge := false)
  {
    h1 := Step(h, NodeSlept);
    h4 := Step(Step(Step(h1, NewChallenge), RestartCounters), InstallKeys);
  }

  /** From every reachable state a login can be made, and the session's first frame goes out
      under a new epoch with counter 1. */
  lemma LoginGoesThrough(run: seq<Event>, h: Hub) returns (g: Hub)
    requires Reaches(Idle(), run, h) && h.epoch < U32_MOD - 5
    ensures Reaches(h, LoginAgain(), g) && g.passed == h.passed + [(h.epoch + 2, 1)] && g.tx == 1
    ensures g.keyed && g.epoch == h.epoch + 2 && g.blocks == h.blocks && g.timers == h.timers
  {
    RunKeepsInv(Idle(), run, h);
    var h1, h4 := LoginSteps(h);
    g := FirstLoopFrame(h4);
    LoginChain(h, h1, h4, g);
  }

  lemma FirstLoopFrame(h: Hub) returns (g: Hub)
    requires Shaped(h) && h.keyed && h.tx == 0 && h.epoch < U32_MOD - 1
    ensures Reaches(h, [LoopFrame(true)] + [], g)
    ensures g == h.(tx := 1, passed := h.passed + [(h.epoch, 1)])
  {
    g := Step(h, LoopFrame(true));
    OneMore(h, LoopFrame(true), [], g);
  }

  lemma LoginChain(h: Hub, h1: Hub, h4: Hub, g: Hub)
    requires h.epoch < U32_MOD - 5 && Enabled(h, NodeSlept) && h1 == Step(h, NodeSlept) && Enabled(h1, NewChallenge)
    requires h4 == Step(Step(Step(h1, NewChallenge), RestartCounters), InstallKeys)
    requires Reaches(h4, [LoopFrame(true)] + [], g)
    ensures Reaches(h, LoginAgain(), g)
  {
    LoginRunStart(h1, h4, [LoopFrame(true)] + [], g);
    OneMore(h, NodeSlept, [NewChallenge, RestartCounters, InstallKeys] + ([LoopFrame(true)] + []), g);
    assert [NodeSlept] + ([NewChallenge, RestartCounters, InstallKeys] + ([LoopFrame(true)] + [])) == LoginAgain();
  }

  /** One frame of stream j on a new block of n. */
  function StreamFrame(j: nat, n: u32): seq<Event> {
    [Reserve(j, n, true), ReadEpoch(j), TakeCounter(j), SealFrame(j), CheckSeal(j)]
  }

  lemma StreamSteps(h: Hub, j: nat, n: u32) returns (h3: Hub)
    requires Inv(h) && h.keyed && h.epoch < U32_MOD - 1 && h.tx < CTR_LIMIT - 1 && n > 0
    requires j < STREAMS && h.timers[j].Resting?
    ensures Enabled(h, Reserve(j, n, true)) && Enabled(Step(h, Reserve(j, n, true)), ReadEpoch(j))
    ensures var h2 := Step(Step(h, Reserve(j, n, true)), ReadEpoch(j));
            Enabled(h2, TakeCounter(j)) && h3 == Step(h2, TakeCounter(j))
    ensures Shaped(h3) && h3.timers == h.timers[j := Took(h.tx + 1)] && h3.epoch == h.epoch == h3.blocks[j].epoch
    ensures h3.keyed && h3.passed == h.passed
  {
    BlockEndBounds(h.tx, n);
    h3 := Step(Step(Step(h, Reserve(j, n, true)), ReadEpoch(j)), TakeCounter(j));
  }

  lemma StreamSeals(h3: Hub, j: nat, c: u32) returns (g: Hub)
    requires Shaped(h3) && j < STREAMS && h3.timers[j] == Took(c) && h3.epoch == h3.blocks[j].epoch < U32_MOD - 1
    requires h3.keyed
    ensures Reaches(h3, [SealFrame(j)] + ([CheckSeal(j)] + []), g)
    ensures g.passed == h3.passed + [(h3.epoch, c)] && g.timers == h3.timers[j := Resting]
  {
    var h4 := Step(h3, SealFrame(j));
    g := Step(h4, CheckSeal(j));
    OneMore(h4, CheckSeal(j), [], g);
    OneMore(h3, SealFrame(j), [CheckSeal(j)] + [], g);
  }

  lemma StreamChain(h: Hub, j: nat, n: u32, rest: seq<Event>, g: Hub)
    requires Enabled(h, Reserve(j, n, true)) && Enabled(Step(h, Reserve(j, n, true)), ReadEpoch(j))
    requires var h2 := Step(Step(h, Reserve(j, n, true)), ReadEpoch(j));
             Enabled(h2, TakeCounter(j)) && Reaches(Step(h2, TakeCounter(j)), rest, g)
    ensures Reaches(h, [Reserve(j, n, true)] + ([ReadEpoch(j)] + ([TakeCounter(j)] + rest)), g)
  {
    var h1 := Step(h, Reserve(j, n, true));
    OneMore(Step(h1, ReadEpoch(j)), TakeCounter(j), rest, g);
    OneMore(h1, ReadEpoch(j), [TakeCounter(j)] + rest, g);
    OneMore(h, Reserve(j, n, true), [ReadEpoch(j)] + ([TakeCounter(j)] + rest), g);
  }

  /** From every reachable state of a live session, a resting stream that reserves a block and
      is not interrupted passes its first frame, on the counter after the loop's last. */
  lemma StreamFrameGoesThrough(run: seq<Event>, h: Hub, j: nat, n: u32) returns (g: Hub)
    requires Reaches(Idle(), run, h) && h.keyed && h.epoch < U32_MOD - 1 && h.tx < CTR_LIMIT - 1 && n > 0
    requires Shaped(h) && j < STREAMS && h.timers[j].Resting?
    ensures Reaches(h, StreamFrame(j, n), g) && g.passed == h.passed + [(h.epoch, h.tx + 1)] && g.timers == h.timers
  {
    RunKeepsInv(Idle(), run, h);
    var h3 := StreamSteps(h, j, n);
    g := StreamSeals(h3, j, h.tx + 1);
    StreamChain(h, j, n, [SealFrame(j)] + ([CheckSeal(j)] + []), g);
    assert [Reserve(j, n, true)] + ([ReadEpoch(j)] + ([TakeCounter(j)] + ([SealFrame(j)] + ([CheckSeal(j)] + []))))
        == StreamFrame(j, n);
  }

  // ---- why the seal is checked ----------------------------------------------

  /** A stream takes counter 1, a login intervenes, and the loop uses counter 1 of
      the new session before the stream seals. */
  function LoginBetweenTakeAndSeal(): seq<Event> {
    [InstallKeys, Reserve(0, 4, true), ReadEpoch(0), TakeCounter(0),
     NewChallenge, RestartCounters, InstallKeys, LoopFrame(true), SealFrame(0)]
  }

  /** The states of a run, one event at a time. */
  lemma OneMore(h: Hub, e: Event, run: seq<Event>, g: Hub)
    requires Enabled(h, e) && Reaches(Step(h, e), run, g)
    ensures Reaches(h, [e] + run, g)
  {
    assert ([e] + run)[1..] == run;
  }

  function Stream0(tx: u32, epoch: u32, timer: Timer, passed: seq<(u32, u32)>): Hub {
    Hub(tx, epoch, true, false, [Block(true, 2, 4, 1), NO_BLOCK, NO_BLOCK], [timer, Resting, Resting], passed)
  }

  lemma TakeFirst(run: seq<Event>, g: Hub)
    requires Reaches(Stream0(4, 1, Took(1), []), run, g)
    ensures Reaches(Idle(), [InstallKeys, Reserve(0, 4, true), ReadEpoch(0), TakeCounter(0)] + run, g)
  {
    assert BlockEnd(1, 4) == 4;
    var h1 := Step(Idle(), InstallKeys);
    var h2 := Step(h1, Reserve(0, 4, true));
    assert h2 == Hub(4, 1, true, false, [Block(true, 1, 4, 1), NO_BLOCK, NO_BLOCK], h1.timers, []);
    assert Step(Step(h2, ReadEpoch(0)), TakeCounter(0)) == Stream0(4, 1, Took(1), []);
    OneMore(Step(h2, ReadEpoch(0)), TakeCounter(0), run, g);
    OneMore(h2, ReadEpoch(0), [TakeCounter(0)] + run, g);
    OneMore(h1, Reserve(0, 4, true), [ReadEpoch(0)] + ([TakeCounter(0)] + run), g);
    OneMore(Idle(), InstallKeys, [Reserve(0, 4, true)] + ([ReadEpoch(0)] + ([TakeCounter(0)] + run)), g);
    assert [InstallKeys] + ([Reserve(0, 4, true)] + ([ReadEpoch(0)] + ([TakeCounter(0)] + run)))
        == [InstallKeys, Reserve(0, 4, true), ReadEpoch(0), TakeCounter(0)] + run;
  }

  lemma LoopThenSeal(g: Hub)
    requires g == Stream0(1, 3, SealedAs(1, 3), [(3, 1)])
    ensures Reaches(Stream0(0, 3, Took(1), []), [LoopFrame(true), SealFrame(0)], g)
  {
    var h := Stream0(0, 3, Took(1), []);
    assert Step(h, LoopFrame(true)) == Stream0(1, 3, Took(1), [(3, 1)]);
    assert Step(Stream0(1, 3, Took(1), [(3, 1)]), SealFrame(0)) == g;
    OneMore(Stream0(1, 3, Took(1), [(3, 1)]), SealFrame(0), [], g);
    OneMore(h, LoopFrame(true), [SealFrame(0)], g);
    assert [LoopFrame(true)] + [SealFrame(0)] == [LoopFrame(true), SealFrame(0)];
  }

  lemma LoginRun()
    ensures Reaches(Idle(), LoginBetweenTakeAndSeal(), Stream0(1, 3, SealedAs(1, 3), [(3, 1)]))
  {
    var g, rest := Stream0(1, 3, SealedAs(1, 3), [(3, 1)]), [LoopFrame(true), SealFrame(0)];
    LoopThenSeal(g);
    LoginRunStart(Stream0(4, 1, Took(1), []), Stream0(0, 3, Took(1), []), rest, g);
    TakeFirst([NewChallenge, RestartCounters, InstallKeys] + rest, g);
    assert [InstallKeys, Reserve(0, 4, true), ReadEpoch(0), TakeCounter(0)]
           + ([NewChallenge, RestartCounters, InstallKeys] + rest) == LoginBetweenTakeAndSeal();
  }

  lemma LoginRunStart(h: Hub, h': Hub, run: seq<Event>, g: Hub)
    requires Enabled(h, NewChallenge) && h.epoch < U32_MOD - 3
    requires h' == Step(Step(Step(h, NewChallenge), RestartCounters), InstallKeys) && Reaches(h', run, g)
    ensures Reaches(h, [NewChallenge, RestartCounters, InstallKeys] + run, g)
  {
    var h1 := Step(h, NewChallenge);
    OneMore(Step(h1, RestartCounters), InstallKeys, run, g);
    OneMore(h1, RestartCounters, [InstallKeys] + run, g);
    assert [RestartCounters] + ([InstallKeys] + run) == [RestartCounters, InstallKeys] + run;
    OneMore(h, NewChallenge, [RestartCounters, InstallKeys] + run, g);
    assert [NewChallenge] + ([RestartCounters, InstallKeys] + run)
        == [NewChallenge, RestartCounters, InstallKeys] + run;
  }

  /** Why the seal is checked again after sealing: a run after which the stream's sealed
      frame repeats a used pair, and is dropped. Were its block granted anew meanwhile,
      which the premise on grants excludes, the check would let it through. */
  lemma SealCheckIsNeeded() returns (h: Hub)
    ensures Reaches(Idle(), LoginBetweenTakeAndSeal(), h)
    ensures Enabled(h, CheckSeal(0)) && h.timers[0] == SealedAs(1, 3) && (3, 1) in h.passed
    ensures Step(h, CheckSeal(0)).passed == h.passed
    ensures !Distinct(Checking(Reserving(h, 0, 4, true), 0).passed)
  {
    LoginRun();
    h := Stream0(1, 3, SealedAs(1, 3), [(3, 1)]);
    NotDistinctAppend(h.passed, (3, 1));
    assert Checking(Reserving(h, 0, 4, true), 0).passed == h.passed + [(3, 1)];
  }
}
