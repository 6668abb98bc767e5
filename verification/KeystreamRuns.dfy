/**
 The counter blocks run over the key store: what a CTR keystream is really made of is
 the encryption key, the session id and the counter, and no two frames that go out
 share all three.
 */
module KeystreamRuns {
  import opened Machine
  import opened FcntBlocks
  import Keys = KeyEpochs
  import Runs = FcntRuns

  const PEER: Keys.Addr := 1

  /** The input of one frame's keystream. */
  datatype Stream = Stream(key: Keys.Key, sessionId: u32, fcnt: u32)

  const NO_STREAM := Stream(0, 0, 0)

  /** The tasks and the store; what each timer's sealed frame was sealed with; the streams
      of the frames passed on; and, for each epoch begun by an install, its key and id. */
  datatype World = World(h: Runs.Hub, store: Keys.Store, sealing: seq<Stream>, air: seq<Stream>,
                         installed: map<u32, (Keys.Key, u32)>)

  datatype Event =
    | Task(e: Runs.Event)            // everything that names neither an id nor a key
    | NewSessionId(id: u32)
    | NewKeys(pair: Keys.KeyPair)

  function Start(): World {
    World(Runs.Idle(), map[PEER := Keys.NO_RECORD], [NO_STREAM, NO_STREAM, NO_STREAM], [], map[])
  }

  function Peer(w: World): Keys.Keys {
    Keys.Record(w.store, PEER)
  }

  /** The event as the counters see it. */
  function Seen(w: World, e: Event): Runs.Event {
    match e
    case Task(t) => t
    case NewSessionId(id) => Runs.SetSessionId(!(Peer(w).hasSessionId && Peer(w).sessionId == id))
    case NewKeys(_) => Runs.InstallKeys
  }

  /** Premise: a session id gets keys at most once. */
  predicate FreshId(w: World) {
    forall epoch <- w.installed :: w.installed[epoch].1 != Peer(w).sessionId
  }

  predicate Possible(w: World, e: Event) {
    && Runs.Enabled(w.h, Seen(w, e))
    && match e
       case Task(t) => !t.SetSessionId? && !t.InstallKeys?
       case NewSessionId(id) => id != 0
       case NewKeys(pair) =>
         pair.enc != 0 && pair.mac != 0 && Peer(w).hasSessionId && Peer(w).sessionId != 0
  }

  predicate Enabled(w: World, e: Event) {
    Possible(w, e) && (e.NewKeys? ==> FreshId(w))
  }

  function SealNow(w: World, fcnt: u32): Keys.SealResult {
    Keys.Seal(w.store, PEER, fcnt, true, true, true)
  }

  function StoreAfter(w: World, e: Event): Keys.Store {
    match e
    case NewSessionId(id) => Keys.SetSessionId(w.store, PEER, id)
    case NewKeys(pair) => Keys.Install(w.store, PEER, Peer(w).sessionId, pair)
    case Task(t) => if t.NewChallenge? || t.NodeRegistered? then Keys.ClearKeys(w.store, PEER) else w.store
  }

  /** What a task adds: a loop frame is sealed and goes out, a timer frame is sealed, or a
      sealed one passes its check. */
  function Acting(w: World, t: Runs.Event): World
    requires Runs.Enabled(w.h, t) && |w.sealing| == Runs.STREAMS
  {
    if t.LoopFrame? && Runs.Allocates(w.h, t.lands) then
      var r := SealNow(w, w.h.tx + 1);
      if r.Sealed? then w.(air := w.air + [Stream(r.keys.enc, r.sessionId, r.fcnt)]) else w
    else if t.SealFrame? then
      var r := SealNow(w, w.h.timers[t.j].fcnt);
      if r.Sealed? then w.(sealing := w.sealing[t.j := Stream(r.keys.enc, r.sessionId, r.fcnt)]) else w
    else if t.CheckSeal? && w.h.timers[t.j].epoch == w.h.blocks[t.j].epoch then
      w.(air := w.air + [w.sealing[t.j]])
    else w
  }

  function Step(w: World, e: Event): World
    requires Possible(w, e) && |w.sealing| == Runs.STREAMS
  {
    var acted := if e.Task? then Acting(w, e.e) else w;
    var h := Runs.Step(w.h, Seen(w, e));
    acted.(h := h, store := StoreAfter(w, e),
           installed := if e.NewKeys? then w.installed[h.epoch := (e.pair.enc, Peer(w).sessionId)] else w.installed)
  }

  /** The counters and the store agree on the epoch and on whether a seal succeeds. */
  ghost predicate Coupled(w: World) {
    && PEER in w.store && Peer(w).keyEpoch == w.h.epoch
    && (w.h.keyed <==> Peer(w).live.enc != 0 && Peer(w).live.mac != 0)
    && (w.h.keyed ==> Peer(w).hasSessionId && Peer(w).sessionId != 0)
  }

  /** Each install began an epoch of its own, with an id of its own. */
  ghost predicate Installed(w: World) {
    && (forall a <- w.installed :: a <= w.h.epoch)
    && (forall a, b :: a in w.installed && b in w.installed && a != b ==> w.installed[a].1 != w.installed[b].1)
    && (w.h.keyed ==> w.h.epoch in w.installed && w.installed[w.h.epoch] == (Peer(w).live.enc, Peer(w).sessionId))
  }

  ghost predicate SealedUnder(w: World, s: Stream, epoch: u32, fcnt: u32) {
    epoch in w.installed && s == Stream(w.installed[epoch].0, w.installed[epoch].1, fcnt)
  }

  ghost predicate Recorded(w: World)
    requires Runs.Shaped(w.h) && |w.sealing| == Runs.STREAMS
  {
    && |w.air| == |w.h.passed|
    && (forall i :: 0 <= i < |w.air| ==> SealedUnder(w, w.air[i], w.h.passed[i].0, w.h.passed[i].1))
    && (forall j :: 0 <= j < Runs.STREAMS ==>
          && (w.h.timers[j].Took? ==> w.h.timers[j].fcnt < CTR_LIMIT)
          && (w.h.timers[j].SealedAs? ==> SealedUnder(w, w.sealing[j], w.h.timers[j].epoch, w.h.timers[j].fcnt)))
  }

  ghost predicate Inv(w: World) {
    Runs.Inv(w.h) && |w.sealing| == Runs.STREAMS && Coupled(w) && Installed(w) && Recorded(w)
  }

  lemma SealIsCurrent(w: World, fcnt: u32)
    requires Inv(w) && fcnt < CTR_LIMIT
    ensures var r := SealNow(w, fcnt);
            && (r.Sealed? <==> w.h.keyed)
            && (r.Sealed? ==> SealedUnder(w, Stream(r.keys.enc, r.sessionId, r.fcnt), w.h.epoch, fcnt))
  {
  }

  lemma KeysKeepInv(w: World, e: Event)
    requires Inv(w) && Enabled(w, e) && !e.Task?
    ensures Inv(Step(w, e))
  {
    Runs.StepKeepsInv(w.h, Seen(w, e));
  }

  lemma LoopKeepsInv(w: World, lands: bool)
    requires Inv(w) && Enabled(w, Task(Runs.LoopFrame(lands)))
    ensures Inv(Step(w, Task(Runs.LoopFrame(lands))))
  {
    Runs.StepKeepsInv(w.h, Runs.LoopFrame(lands));
    if Runs.Allocates(w.h, lands) {
      SealIsCurrent(w, w.h.tx + 1);
    }
  }

  lemma SealKeepsInv(w: World, j: nat)
    requires Inv(w) && Enabled(w, Task(Runs.SealFrame(j)))
    ensures Inv(Step(w, Task(Runs.SealFrame(j))))
  {
    Runs.StepKeepsInv(w.h, Runs.SealFrame(j));
    SealIsCurrent(w, w.h.timers[j].fcnt);
  }

  lemma CheckKeepsInv(w: World, j: nat)
    requires Inv(w) && Enabled(w, Task(Runs.CheckSeal(j)))
    ensures Inv(Step(w, Task(Runs.CheckSeal(j))))
  {
    Runs.StepKeepsInv(w.h, Runs.CheckSeal(j));
  }

  lemma TaskKeepsInv(w: World, t: Runs.Event)
    requires Inv(w) && Enabled(w, Task(t)) && !t.LoopFrame? && !t.SealFrame? && !t.CheckSeal?
    ensures Inv(Step(w, Task(t)))
  {
    Runs.StepKeepsInv(w.h, t);
  }

  lemma StepKeepsInv(w: World, e: Event)
    requires Inv(w) && Enabled(w, e)
    ensures Inv(Step(w, e))
  {
    if !e.Task? {
      KeysKeepInv(w, e);
    } else if e.e.LoopFrame? {
      LoopKeepsInv(w, e.e.lands);
    } else if e.e.SealFrame? {
      SealKeepsInv(w, e.e.j);
    } else if e.e.CheckSeal? {
      CheckKeepsInv(w, e.e.j);
    } else {
      TaskKeepsInv(w, e.e);
    }
  }

  ghost predicate Reaches(w: World, run: seq<Event>, v: World)
    requires |w.sealing| == Runs.STREAMS
    decreases |run|
  {
    if run == [] then w == v else Enabled(w, run[0]) && Reaches(Step(w, run[0]), run[1..], v)
  }

  lemma {:induction false} RunKeepsInv(w: World, run: seq<Event>, v: World)
    requires Inv(w) && Reaches(w, run, v)
    ensures Inv(v)
    decreases |run|
  {
    if run != [] {
      StepKeepsInv(w, run[0]);
      RunKeepsInv(Step(w, run[0]), run[1..], v);
    }
  }

  /** Every interleaving, with session ids that get keys once: no two frames passed on
      share encryption key, session id and counter. */
  lemma KeystreamIsUsedOnce(run: seq<Event>, w: World)
    requires Reaches(Start(), run, w)
    ensures Distinct(w.air)
  {
    RunKeepsInv(Start(), run, w);
    forall i, j | 0 <= i < j < |w.air|
      ensures w.air[i] != w.air[j]
    {
      OtherPairOtherStream(w, i, j);
    }
  }

  lemma OtherPairOtherStream(w: World, i: nat, j: nat)
    requires Inv(w) && i < j < |w.air|
    ensures w.air[i] != w.air[j]
  {
    assert w.h.passed[i] != w.h.passed[j];
    assert SealedUnder(w, w.air[i], w.h.passed[i].0, w.h.passed[i].1);
    assert SealedUnder(w, w.air[j], w.h.passed[j].0, w.h.passed[j].1);
  }

  /** A run in which session ids need not be fresh. */
  ghost predicate Goes(w: World, run: seq<Event>, v: World)
    requires |w.sealing| == Runs.STREAMS
    decreases |run|
  {
    if run == [] then w == v else Possible(w, run[0]) && Goes(Step(w, run[0]), run[1..], v)
  }

  /** A login with this id and these keys, and the first frame of the session. */
  function Login(pair: Keys.KeyPair, id: u32): seq<Event> {
    [Task(Runs.NewChallenge), Task(Runs.RestartCounters), NewSessionId(id), NewKeys(pair), Task(Runs.LoopFrame(true))]
  }

  ghost predicate Sound(w: World) {
    |w.sealing| == Runs.STREAMS && Runs.Shaped(w.h) && PEER in w.store && Peer(w).keyEpoch == w.h.epoch
  }

  lemma GoesOn(w: World, e: Event, run: seq<Event>, v: World)
    requires |w.sealing| == Runs.STREAMS && Possible(w, e) && Goes(Step(w, e), run, v)
    ensures Goes(w, [e] + run, v)
  {
    assert ([e] + run)[1..] == run;
  }

  lemma Challenged(w: World) returns (v: World)
    requires Sound(w) && !w.h.challenge && w.h.epoch < U32_MOD - 2
    ensures Possible(w, Task(Runs.NewChallenge))
    ensures Possible(Step(w, Task(Runs.NewChallenge)), Task(Runs.RestartCounters))
    ensures v == Step(Step(w, Task(Runs.NewChallenge)), Task(Runs.RestartCounters))
    ensures Sound(v) && v.h.challenge && v.h.tx == 0 && v.h.epoch == w.h.epoch + 1 && v.air == w.air
  {
    v := Step(Step(w, Task(Runs.NewChallenge)), Task(Runs.RestartCounters));
  }

  lemma Identified(w: World, id: u32) returns (v: World)
    requires Sound(w) && w.h.challenge && w.h.tx == 0 && w.h.epoch < U32_MOD - 1 && id != 0
    ensures Possible(w, NewSessionId(id)) && v == Step(w, NewSessionId(id))
    ensures Sound(v) && v.h.challenge && v.h.tx == 0 && v.h.epoch <= w.h.epoch + 1 && v.air == w.air
    ensures Peer(v).hasSessionId && Peer(v).sessionId == id
  {
    v := Step(w, NewSessionId(id));
  }

  lemma Keyed(w: World, pair: Keys.KeyPair, id: u32) returns (v: World)
    requires Sound(w) && w.h.tx == 0 && w.h.epoch < U32_MOD - 1 && pair.enc != 0 && pair.mac != 0 && id != 0
    requires Peer(w).hasSessionId && Peer(w).sessionId == id
    ensures Possible(w, NewKeys(pair)) && v == Step(w, NewKeys(pair))
    ensures Sound(v) && !v.h.challenge && v.h.tx == 0 && v.h.epoch == w.h.epoch + 1 && v.air == w.air
    ensures Peer(v).hasSessionId && Peer(v).sessionId == id && Peer(v).live == pair
  {
    v := Step(w, NewKeys(pair));
  }

  lemma FirstFrame(w: World, pair: Keys.KeyPair, id: u32) returns (v: World)
    requires Sound(w) && !w.h.challenge && w.h.tx == 0 && w.h.epoch < U32_MOD - 1
    requires Peer(w).hasSessionId && Peer(w).sessionId == id != 0
    requires Peer(w).live == pair && pair.enc != 0 && pair.mac != 0
    ensures Possible(w, Task(Runs.LoopFrame(true))) && v == Step(w, Task(Runs.LoopFrame(true)))
    ensures Sound(v) && !v.h.challenge && v.h.epoch == w.h.epoch && v.air == w.air + [Stream(pair.enc, id, 1)]
  {
    v := Step(w, Task(Runs.LoopFrame(true)));
  }

  lemma LoginGoes(w: World, pair: Keys.KeyPair, id: u32) returns (v: World)
    requires Sound(w) && !w.h.challenge && w.h.epoch < U32_MOD - 4 && pair.enc != 0 && pair.mac != 0 && id != 0
    ensures Sound(v) && !v.h.challenge && v.h.epoch <= w.h.epoch + 3
    ensures v.air == w.air + [Stream(pair.enc, id, 1)]
    ensures forall more, u :: Goes(v, more, u) ==> Goes(w, Login(pair, id) + more, u)
  {
    var w2 := Challenged(w);
    var w3 := Identified(w2, id);
    var w4 := Keyed(w3, pair, id);
    v := FirstFrame(w4, pair, id);
    forall more, u | Goes(v, more, u)
      ensures Goes(w, Login(pair, id) + more, u)
    {
      var e0, e1 := Task(Runs.NewChallenge), Task(Runs.RestartCounters);
      var e2, e3, e4 := NewSessionId(id), NewKeys(pair), Task(Runs.LoopFrame(true));
      GoesOn(w4, e4, more, u);
      GoesOn(w3, e3, [e4] + more, u);
      GoesOn(w2, e2, [e3] + ([e4] + more), u);
      GoesOn(Step(w, e0), e1, [e2] + ([e3] + ([e4] + more)), u);
      GoesOn(w, e0, [e1] + ([e2] + ([e3] + ([e4] + more))), u);
      assert [e0] + ([e1] + ([e2] + ([e3] + ([e4] + more)))) == Login(pair, id) + more;
    }
  }

  /** Why the id must be fresh: two logins with one id and the same keys send two frames on
      one stream. */
  lemma ReusedIdRepeatsAStream(pair: Keys.KeyPair, id: u32) returns (w: World)
    requires pair.enc != 0 && pair.mac != 0 && id != 0
    ensures Goes(Start(), Login(pair, id) + Login(pair, id), w)
    ensures w.air == [Stream(pair.enc, id, 1), Stream(pair.enc, id, 1)] && !Distinct(w.air)
  {
    var v := LoginGoes(Start(), pair, id);
    w := LoginGoes(v, pair, id);
    assert Login(pair, id) + [] == Login(pair, id);
    assert Goes(w, [], w);
    assert w.air[0] == w.air[1];
  }
}
