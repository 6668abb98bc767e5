/**
 The hub's session keys (HubLinkSecurity.h/.cpp): who holds which key pair and
 session id in which key epoch, and which of them a seal or a retag reaches.
 Cryptography is uninterpreted: a result records the keys, id and counter used.
 */
module KeyEpochs {
  import opened Machine

  type Addr = x: int | 0 <= x < 256
  type Key = int                     // the key itself; 0 is "no key"

  const FCNT_LIMIT: int := 0x8000_0000
  const MAX_CT: nat := 256

  datatype KeyPair = KeyPair(enc: Key, mac: Key)

  const NO_KEYS := KeyPair(0, 0)

  /** One peer's record. */
  datatype Keys = Keys(live: KeyPair, generation: u32, installedSessionId: u32, keyEpoch: u32, staleDrops: u32,
                       sessionId: u32, hasSessionId: bool)

  const NO_RECORD := Keys(NO_KEYS, 0, 0, 0, 0, 0, false)

  type Store = map<Addr, Keys>

  function Record(s: Store, peer: Addr): Keys {
    if peer in s then s[peer] else NO_RECORD
  }

  function SetSessionId(s: Store, peer: Addr, id: u32): Store {
    var k := Record(s, peer);
    if k.hasSessionId && k.sessionId == id then s[peer := k]
    else s[peer := k.(sessionId := id, hasSessionId := true, keyEpoch := Wrap32(k.keyEpoch + 1))]
  }

  function Install(s: Store, peer: Addr, id: u32, keys: KeyPair): Store {
    var k := Record(s, peer);
    s[peer := k.(live := keys, installedSessionId := id, generation := Wrap32(k.generation + 1),
                 keyEpoch := Wrap32(k.keyEpoch + 1))]
  }

  function ClearKeys(s: Store, peer: Addr): Store {
    if peer !in s then s
    else s[peer := s[peer].(live := NO_KEYS, installedSessionId := 0, keyEpoch := Wrap32(s[peer].keyEpoch + 1))]
  }

  function Forget(s: Store, peer: Addr): Store {
    s - {peer}
  }

  // ---- seals ----------------------------------------------------------------

  datatype FrameSeal = FrameSeal(sealed: bool, peer: Addr, keyEpoch: u32, kauth: bool)

  /** The 64-bit value that travels with the frame; its fields do not overlap. */
  function Binding(f: FrameSeal): int {
    if f.sealed
    then 0x8000_0000_0000_0000 + (if f.kauth then 0x4000_0000_0000_0000 else 0) + f.peer * 0x1_0000_0000 + f.keyEpoch
    else 0
  }

  function FromBinding(b: int): FrameSeal
    requires 0 <= b < 0x1_0000_0000_0000_0000
  {
    var sealed := b / 0x8000_0000_0000_0000 != 0;
    FrameSeal(sealed, (b / 0x1_0000_0000) % 256, b % 0x1_0000_0000,
              sealed && (b / 0x4000_0000_0000_0000) % 2 != 0)
  }

  /** A binding is a 64-bit value and gives back exactly the sealed frames (and the
      empty seal). */
  lemma BindingRoundTrip(f: FrameSeal)
    ensures 0 <= Binding(f) < 0x1_0000_0000_0000_0000
    ensures FromBinding(Binding(f)) == f <==> f.sealed || f == FrameSeal(false, 0, 0, false)
  {
    var low := f.peer * 0x1_0000_0000 + f.keyEpoch;
    assert low / 0x1_0000_0000 == f.peer && low % 0x1_0000_0000 == f.keyEpoch;
    if f.sealed {
      var b := Binding(f);
      var top := 0x8000_0000 + (if f.kauth then 0x4000_0000 else 0);
      assert b == (top + f.peer) * 0x1_0000_0000 + f.keyEpoch;
      assert b / 0x1_0000_0000 == top + f.peer;
    }
  }

  datatype SealResult =
    | MsgidSpent
    | NoSession
    | NoKey
    | NotSealed
    | Sealed(seal: FrameSeal, keys: KeyPair, sessionId: u32, fcnt: u32)

  /** sealFrameV1: `shaped` says whether the frame's shape is sound, `memory` whether the
      work area was allocated, `works` whether both cipher calls succeed. */
  function Seal(s: Store, dst: Addr, fcnt: u32, shaped: bool, memory: bool, works: bool): SealResult {
    if !shaped then NotSealed
    else if fcnt >= FCNT_LIMIT then MsgidSpent
    else if !memory then NotSealed
    else
      var k := Record(s, dst);
      var id := if k.hasSessionId then k.sessionId else 0;
      if id == 0 then NoSession
      else if k.live.enc == 0 || k.live.mac == 0 then NoKey
      else if !works then NotSealed
      else Sealed(FrameSeal(true, dst, k.keyEpoch, false), k.live, id, fcnt)
  }

  /** Exactly which frames are sealed, and under what: the keys and the id the peer has now. */
  lemma SealedIff(s: Store, dst: Addr, fcnt: u32, shaped: bool, memory: bool, works: bool)
    ensures var k, r := Record(s, dst), Seal(s, dst, fcnt, shaped, memory, works);
            && (r.Sealed? <==> shaped && memory && works && fcnt < 0x8000_0000 && k.hasSessionId && k.sessionId != 0
                               && k.live.enc != 0 && k.live.mac != 0)
            && (r.Sealed? ==> r == Sealed(FrameSeal(true, dst, k.keyEpoch, false), k.live, k.sessionId, fcnt))
  {
  }

  datatype RetagResult = Spent | Unsealed | Stale | Failed | Tagged(mac: Key, sessionId: u32)

  /** retagFrameV1 over macUnderKeyLock_: the key and the id the copy's tag is
      computed under. */
  function Retag(s: Store, seal: FrameSeal, dst: Addr, fcnt: u32, len: nat, works: bool): (Store, RetagResult) {
    if fcnt >= FCNT_LIMIT then (s, Spent)
    else if !seal.sealed then (s, Unsealed)
    else if len > MAX_CT then (s, Failed)
    else
      var bound := if dst != seal.peer then 0xFFFF_FFFF - seal.keyEpoch else seal.keyEpoch;
      if seal.peer !in s then (s, Unsealed)
      else if s[seal.peer].keyEpoch != bound then
        (s[seal.peer := s[seal.peer].(staleDrops := Wrap32(s[seal.peer].staleDrops + 1))], Stale)
      else if !s[seal.peer].hasSessionId then (s, Unsealed)
      else if s[seal.peer].live.mac == 0 || !works then (s, Failed)
      else (s, Tagged(s[seal.peer].live.mac, s[seal.peer].sessionId))
  }

  class SessionKeyStore {
    var keys: Store

    constructor ()
      ensures keys == map[]
    {
      keys := map[];
    }

    method SetId(peer: Addr, id: u32)
      modifies this
      ensures keys == SetSessionId(old(keys), peer, id)
    {
      if peer !in keys {
        keys := keys[peer := NO_RECORD];
      }
      var k := keys[peer];
      if k.hasSessionId && k.sessionId == id {
        return;
      }
      k := k.(sessionId := id, hasSessionId := true);
      k := k.(keyEpoch := Wrap32(k.keyEpoch + 1));
      keys := keys[peer := k];
    }

    method InstallKeys(peer: Addr, id: u32, pair: KeyPair)
      modifies this
      ensures keys == Install(old(keys), peer, id, pair)
    {
      if peer !in keys {
        keys := keys[peer := NO_RECORD];
      }
      var k := keys[peer];
      k := k.(live := pair, installedSessionId := id);
      k := k.(generation := Wrap32(k.generation + 1));
      k := k.(keyEpoch := Wrap32(k.keyEpoch + 1));
      keys := keys[peer := k];
    }

    method Clear(peer: Addr)
      modifies this
      ensures keys == ClearKeys(old(keys), peer)
    {
      if peer !in keys {
        return;
      }
      var k := keys[peer];
      k := k.(live := NO_KEYS, installedSessionId := 0);
      keys := keys[peer := k.(keyEpoch := Wrap32(k.keyEpoch + 1))];
    }

    method Erase(peer: Addr)
      modifies this
      ensures keys == Forget(old(keys), peer)
    {
      keys := keys - {peer};
    }

    /** `len` is the number of bytes the tag covers, `works` the outcome of the MAC call. */
    method RetagCopy(seal: FrameSeal, dst: Addr, fcnt: u32, len: nat, works: bool) returns (r: RetagResult)
      modifies this
      ensures (keys, r) == Retag(old(keys), seal, dst, fcnt, len, works)
    {
      if fcnt >= FCNT_LIMIT {
        return Spent;
      }
      if !seal.sealed {
        return Unsealed;
      }
      if len > MAX_CT {
        return Failed;
      }
      var bound := seal.keyEpoch;
      if dst != seal.peer {
        bound := 0xFFFF_FFFF - seal.keyEpoch;
      }
      if seal.peer !in keys {
        return Unsealed;
      }
      var k := keys[seal.peer];
      if k.keyEpoch != bound {
        keys := keys[seal.peer := k.(staleDrops := Wrap32(k.staleDrops + 1))];
        return Stale;
      }
      if !k.hasSessionId {
        return Unsealed;
      }
      if k.live.mac == 0 || !works {
        return Failed;
      }
      return Tagged(k.live.mac, k.sessionId);
    }
  }

  // ---- runs of the store ----------------------------------------------------

  /** A sealed frame on its way to the radio, with what sealed it. */
  datatype Sent = Sent(seal: FrameSeal, keys: KeyPair, sessionId: u32)

  datatype World = World(store: Store, sent: seq<Sent>)

  datatype Event =
    | NewId(peer: Addr, id: u32)
    | NewKeys(peer: Addr, id: u32, pair: KeyPair)
    | NoMoreKeys(peer: Addr)
    | SealFrame(dst: Addr, fcnt: u32, shaped: bool, memory: bool, works: bool)
    | RetagFrame(seal: FrameSeal, dst: Addr, fcnt: u32, len: nat, works: bool)

  function Step(w: World, e: Event): World {
    match e
    case NewId(peer, id) => w.(store := SetSessionId(w.store, peer, id))
    case NewKeys(peer, id, pair) => w.(store := Install(w.store, peer, id, pair))
    case NoMoreKeys(peer) => w.(store := ClearKeys(w.store, peer))
    case RetagFrame(seal, dst, fcnt, len, works) => w.(store := Retag(w.store, seal, dst, fcnt, len, works).0)
    case SealFrame(dst, fcnt, shaped, memory, works) =>
      var r := Seal(w.store, dst, fcnt, shaped, memory, works);
      if r.Sealed? then w.(sent := w.sent + [Sent(r.seal, r.keys, r.sessionId)]) else w
  }

  ghost predicate EpochsBelow(s: Store, limit: int) {
    forall p :: p in s ==> s[p].keyEpoch < limit
  }

  /** A frame whose epoch is still its peer's was sealed under the keys and the id
      the peer holds now. */
  ghost predicate Inv(w: World) {
    forall i :: 0 <= i < |w.sent| ==>
      var f := w.sent[i];
      && f.seal.sealed && f.seal.peer in w.store && f.keys.mac != 0
      && f.seal.keyEpoch <= w.store[f.seal.peer].keyEpoch
      && (f.seal.keyEpoch == w.store[f.seal.peer].keyEpoch ==>
            f.keys == w.store[f.seal.peer].live && f.sessionId == w.store[f.seal.peer].sessionId
            && w.store[f.seal.peer].hasSessionId)
  }

  lemma StepKeepsInv(w: World, e: Event)
    requires Inv(w) && EpochsBelow(w.store, 0x7FFF_FFFF)
    ensures Inv(Step(w, e))
  {
  }

  ghost predicate Reaches(w: World, run: seq<Event>, v: World)
    decreases |run|
  {
    if run == [] then w == v
    else EpochsBelow(w.store, 0x7FFF_FFFF) && Reaches(Step(w, run[0]), run[1..], v)
  }

  lemma {:induction false} RunKeepsInv(w: World, run: seq<Event>, v: World)
    requires Inv(w) && Reaches(w, run, v)
    ensures Inv(v)
    decreases |run|
  {
    if run != [] {
      StepKeepsInv(w, run[0]);
      RunKeepsInv(Step(w, run[0]), run[1..], v);
    }
  }

  /** In any run without forget, a copy is tagged only for its own peer and only
      under the very MAC key and session id its frame was sealed under, whoever
      asks and however many keys came and went in between. */
  lemma RetagUsesTheSealingKeys(run: seq<Event>, v: World, i: nat, dst: Addr, fcnt: u32, len: nat, works: bool)
    requires Reaches(World(map[], []), run, v) && EpochsBelow(v.store, 0x8000_0000) && i < |v.sent|
    ensures var r := Retag(v.store, FromBinding(Binding(v.sent[i].seal)), dst, fcnt, len, works).1;
            r.Tagged? ==>
              r.mac == v.sent[i].keys.mac && r.sessionId == v.sent[i].sessionId && dst == v.sent[i].seal.peer
  {
    RunKeepsInv(World(map[], []), run, v);
    BindingRoundTrip(v.sent[i].seal);
  }

  /** The step gives the peer other keys, none, or another session id. */
  predicate Moves(s: Store, e: Event, peer: Addr) {
    || (e.NewKeys? && e.peer == peer)
    || (e.NoMoreKeys? && e.peer == peer && peer in s)
    || (e.NewId? && e.peer == peer && !(Record(s, peer).hasSessionId && Record(s, peer).sessionId == e.id))
  }

  function MovesOf(w: World, run: seq<Event>, peer: Addr): nat
    decreases |run|
  {
    if run == [] then 0
    else (if Moves(w.store, run[0], peer) then 1 else 0) + MovesOf(Step(w, run[0]), run[1..], peer)
  }

  /** A peer's epoch counts its moves, one for one. */
  lemma {:induction false} EpochCountsMoves(w: World, run: seq<Event>, v: World, peer: Addr)
    requires Reaches(w, run, v) && EpochsBelow(v.store, 0x8000_0000)
    ensures Record(v.store, peer).keyEpoch == Record(w.store, peer).keyEpoch + MovesOf(w, run, peer)
    decreases |run|
  {
    if run != [] {
      OneMove(w, run[0], peer);
      EpochCountsMoves(Step(w, run[0]), run[1..], v, peer);
    }
  }

  lemma OneMove(w: World, e: Event, peer: Addr)
    requires EpochsBelow(w.store, 0x7FFF_FFFF)
    ensures Record(Step(w, e).store, peer).keyEpoch
         == Record(w.store, peer).keyEpoch + (if Moves(w.store, e, peer) then 1 else 0)
  {
  }

  // ---- what a record tells of the past --------------------------------------

  function Installs(run: seq<Event>, peer: Addr): nat
    decreases |run|
  {
    if run == [] then 0 else (if run[0].NewKeys? && run[0].peer == peer then 1 else 0) + Installs(run[1..], peer)
  }

  /** The id of the last keys given to the peer and not taken away since, or what it was. */
  function LastInstalled(run: seq<Event>, peer: Addr, was: u32): u32
    decreases |run|
  {
    if run == [] then was
    else LastInstalled(run[1..], peer, if run[0].NewKeys? && run[0].peer == peer then run[0].id
                                       else if run[0].NoMoreKeys? && run[0].peer == peer then 0
                                       else was)
  }

  /** Copies dropped because the peer's epoch had moved. */
  function StaleCopies(w: World, run: seq<Event>, peer: Addr): nat
    decreases |run|
  {
    if run == [] then 0
    else
      (if run[0].RetagFrame? && run[0].seal.peer == peer
          && Retag(w.store, run[0].seal, run[0].dst, run[0].fcnt, run[0].len, run[0].works).1.Stale? then 1 else 0)
      + StaleCopies(Step(w, run[0]), run[1..], peer)
  }

  lemma OneStepTells(w: World, e: Event, peer: Addr)
    ensures var k, l := Record(w.store, peer), Record(Step(w, e).store, peer);
            && l.generation == Wrap32(k.generation + Installs([e], peer))
            && l.staleDrops == Wrap32(k.staleDrops + StaleCopies(w, [e], peer))
            && l.installedSessionId == LastInstalled([e], peer, k.installedSessionId)
  {
    assert [e][1..] == [];
  }

  lemma HeadFirst(w: World, run: seq<Event>, peer: Addr, was: u32)
    requires run != []
    ensures Installs(run, peer) == Installs([run[0]], peer) + Installs(run[1..], peer)
    ensures LastInstalled(run, peer, was) == LastInstalled(run[1..], peer, LastInstalled([run[0]], peer, was))
    ensures StaleCopies(w, run, peer) == StaleCopies(w, [run[0]], peer) + StaleCopies(Step(w, run[0]), run[1..], peer)
  {
    assert [run[0]][1..] == [];
  }

  /** The record l is what the record k becomes over so many installs and stale copies. */
  predicate Tells(k: Keys, l: Keys, installs: nat, stale: nat, id: u32) {
    && l.generation == Wrap32(k.generation + installs) && l.staleDrops == Wrap32(k.staleDrops + stale)
    && l.installedSessionId == id
  }

  lemma TellsOn(k: Keys, l: Keys, m: Keys, i: nat, s: nat, id: u32, i2: nat, s2: nat, id2: u32)
    requires Tells(k, l, i, s, id) && Tells(l, m, i2, s2, id2)
    ensures Tells(k, m, i + i2, s + s2, id2)
  {
  }

  /** Over any run without forget a record tells its peer's history: how often it was given
      keys and how many copies went stale, both modulo 2^32, and the id of its last keys. */
  lemma {:induction false} RecordTellsHistory(w: World, run: seq<Event>, v: World, peer: Addr)
    requires Reaches(w, run, v)
    ensures var k := Record(w.store, peer);
            Tells(k, Record(v.store, peer), Installs(run, peer), StaleCopies(w, run, peer),
                  LastInstalled(run, peer, k.installedSessionId))
    decreases |run|
  {
    if run != [] {
      var e, k, l := run[0], Record(w.store, peer), Record(Step(w, run[0]).store, peer);
      OneStepTells(w, e, peer);
      RecordTellsHistory(Step(w, e), run[1..], v, peer);
      HeadFirst(w, run, peer, k.installedSessionId);
      TellsOn(k, l, Record(v.store, peer), Installs([e], peer), StaleCopies(w, [e], peer),
              LastInstalled([e], peer, k.installedSessionId),
              Installs(run[1..], peer), StaleCopies(Step(w, e), run[1..], peer),
              LastInstalled(run[1..], peer, l.installedSessionId));
    }
  }

  lemma {:induction false} SentStays(w: World, run: seq<Event>, v: World)
    requires Reaches(w, run, v)
    ensures w.sent <= v.sent
    decreases |run|
  {
    if run != [] {
      SentStays(Step(w, run[0]), run[1..], v);
    }
  }

  /** Exactly which copies are tagged, over any run without forget: a frame sealed at w is
      tagged later if and only if the copy is for its own peer, its counter and length are in
      range, the MAC call works, and that peer has had no other keys or id in between. */
  lemma RetagTagsIff(before: seq<Event>, w: World, e: Event, after: seq<Event>, v: World, dst: Addr, fcnt: u32,
                     len: nat, works: bool)
    requires Reaches(World(map[], []), before, w) && EpochsBelow(w.store, 0x7FFF_FFFF)
    requires e.SealFrame? && Seal(w.store, e.dst, e.fcnt, e.shaped, e.memory, e.works).Sealed?
    requires Reaches(Step(w, e), after, v) && EpochsBelow(v.store, 0x7FFF_FFFF)
    ensures |w.sent| < |v.sent|
    ensures Retag(v.store, FromBinding(Binding(v.sent[|w.sent|].seal)), dst, fcnt, len, works).1.Tagged?
       <==> dst == e.dst && fcnt < FCNT_LIMIT && len <= MAX_CT && works && MovesOf(Step(w, e), after, e.dst) == 0
  {
    var u, i := Step(w, e), |w.sent|;
    SentStays(u, after, v);
    RunKeepsInv(World(map[], []), before, w);
    StepKeepsInv(w, e);
    RunKeepsInv(u, after, v);
    EpochCountsMoves(u, after, v, e.dst);
    assert u.sent[i].seal == FrameSeal(true, e.dst, Record(w.store, e.dst).keyEpoch, false);
    BindingRoundTrip(v.sent[i].seal);
  }

  /** Forgetting a peer restarts its epochs: a frame sealed before is then tagged
      under another session's key. */
  lemma ForgetBreaksTheBinding()
    ensures var s := Install(SetSessionId(map[], 7, 100), 7, 100, KeyPair(1, 2));
            var f := Seal(s, 7, 1, true, true, true);
            var t := Install(SetSessionId(Forget(s, 7), 7, 200), 7, 200, KeyPair(3, 4));
            f.Sealed? && f.keys.mac == 2 && Retag(t, f.seal, 7, 1, 20, true).1 == Tagged(4, 200)
  {
  }
}
