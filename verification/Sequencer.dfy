/**
 MAC-1 sequencing: the frame counter of one link end (Sequencer.h).

 `State` is the value of the object's fields; the functions on it say what each
 operation does, the class performs the operation on its fields and is proved
 against them. What the operations are for is proved in SequencerRuns.dfy.
 */
module Sequencer {
  import opened Machine

  datatype Policy = SlidingWindow | ForwardRatchet
  datatype Config = Config(policy: Policy, txMargin: u32, rxMargin: u32)

  const FORWARD_WINDOW: int := 1024
  const REPLAY_WINDOW: int := 64
  const FCNT_LIMIT: int := 0x8000_0000

  const NODE_CONFIG := Config(SlidingWindow, 64, 16)
  const HUB_CONFIG := Config(ForwardRatchet, 1, 1)

  /** A persisted (txId, rxId) pair. */
  datatype Snapshot = Snapshot(tx: u32, rx: u32)

  /** What one call of the caller's persist hook does to the sequencer: the
      snapshot it passed to notePersisted (if any) and the value it returned. */
  datatype Hook = Hook(noted: Option<Snapshot>, ok: bool)

  datatype AllocStatus = Ok | Spent | PersistFailed
  datatype Alloc = Alloc(fcnt: u32, status: AllocStatus)
  datatype Verdict = Rejected | Advanced | Reordered

  datatype State = State(
    cfg: Config,
    tx: u32,
    rx: u32,
    seen: Word64,          // bit n: id rx - n has been accepted
    lastAccepted: u32,
    lastAcceptedUs: int,
    persistedTx: u32,
    persistedRx: u32)

  function Initial(cfg: Config): State {
    State(cfg, 0, 0, Zeros64(), 0, 0, 0, 0)
  }

  function AfterHook(s: State, h: Hook): State {
    match h.noted
    case None => s
    case Some(snap) => s.(persistedTx := snap.tx, persistedRx := snap.rx)
  }

  /** The candidate id reaches the persist margin, so the hook must run first. */
  predicate AllocateWrites(s: State) {
    s.tx < FCNT_LIMIT - 1 && s.tx + 1 >= Wrap32(s.persistedTx + s.cfg.txMargin)
  }

  /** A write of these counters that lands, or one that does not. */
  function HookFor(lands: bool, tx: u32, rx: u32): Hook {
    if lands then Hook(Some(Snapshot(tx, rx)), true) else Hook(None, false)
  }

  function Allocate(s: State, h: Hook): (State, Alloc) {
    if s.tx >= FCNT_LIMIT - 1 then (s, Alloc(0, Spent))
    else if !AllocateWrites(s) then (s.(tx := s.tx + 1), Alloc(s.tx + 1, Ok))
    else
      var w := AfterHook(s.(tx := s.tx + 1), h);
      if h.ok && w.persistedTx == s.tx + 1 then (w, Alloc(s.tx + 1, Ok))
      else (w.(tx := s.tx), Alloc(0, PersistFailed))
  }

  predicate Check(s: State, fcnt: u32) {
    if s.rx < fcnt <= Wrap32(s.rx + FORWARD_WINDOW) then true
    else if s.cfg.policy.ForwardRatchet? then false
    else
      var behind := Wrap32(s.rx - fcnt);
      behind < REPLAY_WINDOW && !s.seen[behind]
  }

  predicate TxPersistDue(s: State) {
    s.tx >= Wrap32(s.persistedTx + s.cfg.txMargin)
  }

  /** The new mark is a full margin past the persisted one. */
  predicate RxPersistDue(s: State) {
    Wrap32(s.rx - s.persistedRx) >= s.cfg.rxMargin
  }

  function MoveMark(s: State, fcnt: u32): State
    requires fcnt > s.rx
  {
    s.(rx := fcnt, seen := WithBit(if fcnt - s.rx >= 64 then Zeros64() else Shl(s.seen, fcnt - s.rx), 0))
  }

  function Accepted(s: State, fcnt: u32, nowUs: int): State {
    s.(lastAccepted := fcnt, lastAcceptedUs := nowUs)
  }

  /** `h1` answers the rx-margin write, `h2` the overdue tx snapshot. */
  function Commit(s: State, fcnt: u32, nowUs: int, h1: Hook, h2: Hook): (State, Verdict) {
    if !Check(s, fcnt) then (s, Rejected)
    else if fcnt > s.rx then
      var a := MoveMark(s, fcnt);
      var b := if RxPersistDue(a) then AfterHook(a, h1) else a;
      var c := if TxPersistDue(b) then AfterHook(b, h2) else b;
      (Accepted(c, fcnt, nowUs), Advanced)
    else
      var behind := Wrap32(s.rx - fcnt);
      (Accepted(s.(seen := if behind < 64 then WithBit(s.seen, behind) else s.seen), fcnt, nowUs), Reordered)
  }

  function Reset(s: State): State {
    s.(tx := 0, rx := 0, seen := Zeros64())
  }

  /** Both counters and both persisted marks at the given snapshot. */
  function Marks(s: State, m: Snapshot): State {
    s.(tx := m.tx, rx := m.rx, persistedTx := m.tx, persistedRx := m.rx)
  }

  function Restore(s: State, saved: Snapshot): State {
    Marks(s.(seen := Ones64()), Snapshot(Wrap32(saved.tx + s.cfg.txMargin), Wrap32(saved.rx + s.cfg.rxMargin)))
  }

  class Sequencer {
    const cfg: Config
    var tx: u32
    var rx: u32
    var seen: Word64
    var lastAccepted: u32
    var lastAcceptedUs: int
    var persistedTx: u32
    var persistedRx: u32

    ghost function Value(): State
      reads this
    {
      State(cfg, tx, rx, seen, lastAccepted, lastAcceptedUs, persistedTx, persistedRx)
    }

    constructor (cfg: Config)
      ensures Value() == Initial(cfg)
    {
      this.cfg := cfg;
      tx, rx, seen := 0, 0, Zeros64();
      lastAccepted, lastAcceptedUs := 0, 0;
      persistedTx, persistedRx := 0, 0;
    }

    method CallHook(h: Hook) returns (ok: bool)
      modifies this`persistedTx, this`persistedRx
      ensures Value() == AfterHook(old(Value()), h) && ok == h.ok
    {
      if h.noted.Some? {
        NotePersisted(h.noted.value);
      }
      ok := h.ok;
    }

    method NotePersisted(saved: Snapshot)
      modifies this`persistedTx, this`persistedRx
      ensures Value() == old(Value()).(persistedTx := saved.tx, persistedRx := saved.rx)
    {
      persistedTx := saved.tx;
      persistedRx := saved.rx;
    }

    method AllocateId(h: Hook) returns (a: Alloc)
      modifies this
      ensures (Value(), a) == Allocate(old(Value()), h)
    {
      if tx >= FCNT_LIMIT - 1 {
        return Alloc(0, Spent);
      }
      var candidate := tx + 1;
      tx := candidate;
      if candidate < Wrap32(persistedTx + cfg.txMargin) {
        return Alloc(candidate, Ok);
      }
      var landed := CallHook(h);
      if landed && persistedTx == candidate {
        return Alloc(candidate, Ok);
      }
      tx := candidate - 1;
      return Alloc(0, PersistFailed);
    }

    method CheckId(fcnt: u32) returns (ok: bool)
      ensures ok == Check(Value(), fcnt)
    {
      if fcnt > rx && fcnt <= Wrap32(rx + FORWARD_WINDOW) {
        return true;
      }
      if cfg.policy.ForwardRatchet? {
        return false;
      }
      var behind := Wrap32(rx - fcnt);
      if behind >= REPLAY_WINDOW {
        return false;
      }
      return !seen[behind];
    }

    method CommitId(fcnt: u32, nowUs: int, h1: Hook, h2: Hook) returns (v: Verdict)
      modifies this
      ensures (Value(), v) == Commit(old(Value()), fcnt, nowUs, h1, h2)
    {
      var admissible := CheckId(fcnt);
      if !admissible {
        return Rejected;
      }
      if fcnt > rx {
        var advance := fcnt - rx;
        seen := if advance >= 64 then Zeros64() else Shl(seen, advance);
        seen := WithBit(seen, 0);
        rx := fcnt;
        if Wrap32(rx - persistedRx) >= cfg.rxMargin {
          var _ := CallHook(h1);
        }
        if tx >= Wrap32(persistedTx + cfg.txMargin) {
          var _ := CallHook(h2);
        }
        v := Advanced;
      } else {
        seen := WithBit(seen, rx - fcnt);
        v := Reordered;
      }
      lastAccepted, lastAcceptedUs := fcnt, nowUs;
    }

    method StartOver()
      modifies this`tx, this`rx, this`seen
      ensures Value() == Reset(old(Value()))
    {
      tx, rx, seen := 0, 0, Zeros64();
    }

    method Install(saved: Snapshot)
      modifies this`tx, this`rx, this`seen, this`persistedTx, this`persistedRx
      ensures Value() == Restore(old(Value()), saved)
    {
      rx := Wrap32(saved.rx + cfg.rxMargin);
      seen := Ones64();
      persistedRx := rx;
      tx := Wrap32(saved.tx + cfg.txMargin);
      persistedTx := tx;
    }
  }

  // ---- the window refines a plain set of accepted ids ----------------------

  /** Ids the window can still tell apart: at most 63 below the mark, or a
      forward jump of at most 1024 that does not run past the 32-bit range. */
  predicate InReach(rx: u32, fcnt: u32) {
    rx - REPLAY_WINDOW < fcnt <= rx || (rx < fcnt <= rx + FORWARD_WINDOW && rx + FORWARD_WINDOW < U32_MOD)
  }

  /** The bitmap records exactly the accepted ids of the last 64. */
  ghost predicate Represents(s: State, accepted: set<u32>) {
    && (forall f :: f in accepted ==> f <= s.rx)
    && (forall n :: 0 <= n < 64 && n <= s.rx ==> (s.seen[n] <==> s.rx - n in accepted))
  }

  /** What the code accepts, for every 32-bit id. The last disjunct is the wrap
      of `rx - fcnt` for an id more than 2^32 - 64 ahead of the mark: such an id
      is taken for a reordered one. */
  lemma CheckExactly(s: State, accepted: set<u32>, fcnt: u32)
    requires s.cfg.policy.SlidingWindow? && Represents(s, accepted)
    ensures Check(s, fcnt) <==>
            || (fcnt !in accepted && InReach(s.rx, fcnt))
            || (fcnt - s.rx > U32_MOD - REPLAY_WINDOW && !s.seen[U32_MOD - (fcnt - s.rx)])
  {
    if fcnt <= s.rx {
      var n := s.rx - fcnt;
      assert fcnt == s.rx - n;
      assert Wrap32(n) == n;
    } else {
      assert Wrap32(s.rx - fcnt) == s.rx - fcnt + U32_MOD;
    }
  }

  /** For the ids a receiver lets through (bit 31 clear) the window is exactly
      "not accepted yet, and within reach". */
  lemma CheckIsMembership(s: State, accepted: set<u32>, fcnt: u32)
    requires s.cfg.policy.SlidingWindow? && Represents(s, accepted)
    requires fcnt < FCNT_LIMIT
    ensures Check(s, fcnt) <==> fcnt !in accepted && InReach(s.rx, fcnt)
  {
    CheckExactly(s, accepted, fcnt);
  }

  /** Without the bit-31 check the claim fails: a fresh window accepts an id
      4294967286 ahead and moves its mark there. */
  lemma WrappedIdIsAccepted(h1: Hook, h2: Hook)
    ensures var s := Initial(NODE_CONFIG);
            && Represents(s, {}) && !InReach(s.rx, 0xFFFF_FFF6)
            && Check(s, 0xFFFF_FFF6)
            && Commit(s, 0xFFFF_FFF6, 0, h1, h2).0.rx == 0xFFFF_FFF6
  {
    var s := Initial(NODE_CONFIG);
    assert Wrap32(s.rx - 0xFFFF_FFF6) == 10;
  }

  /** One commit: accepts exactly when Check says so, and the set gains exactly
      the accepted id, whatever the persist hook does. */
  lemma CommitAddsToSet(s: State, accepted: set<u32>, fcnt: u32, nowUs: int, h1: Hook, h2: Hook)
    requires s.cfg.policy.SlidingWindow? && Represents(s, accepted)
    requires fcnt < FCNT_LIMIT
    ensures var (t, v) := Commit(s, fcnt, nowUs, h1, h2);
            && (v.Rejected? <==> fcnt in accepted || !InReach(s.rx, fcnt))
            && (v.Rejected? ==> t == s)
            && (!v.Rejected? ==> Represents(t, accepted + {fcnt}) && t.rx == (if fcnt > s.rx then fcnt else s.rx))
            && (!v.Rejected? ==> t.lastAccepted == fcnt && t.lastAcceptedUs == nowUs)
            && t.cfg == s.cfg
  {
    CheckIsMembership(s, accepted, fcnt);
    var (t, v) := Commit(s, fcnt, nowUs, h1, h2);
    if v.Advanced? {
      forall n | 0 <= n < 64 && n <= t.rx
        ensures t.seen[n] <==> t.rx - n in accepted + {fcnt}
      {
        var a := fcnt - s.rx;
        if a <= n < 64 {
          assert t.seen[n] == s.seen[n - a];
          assert t.rx - n == s.rx - (n - a);
        }
      }
    } else if v.Reordered? {
      assert Wrap32(s.rx - fcnt) == s.rx - fcnt;
    }
  }

  type Fcnt = x: u32 | x < FCNT_LIMIT

  /** One received id with the instant and the hook answers that went with it. */
  datatype Arrival = Arrival(fcnt: Fcnt, nowUs: int, h1: Hook, h2: Hook)

  function CommitAll(s: State, arrivals: seq<Arrival>): State
    decreases |arrivals|
  {
    if arrivals == [] then s
    else CommitAll(Commit(s, arrivals[0].fcnt, arrivals[0].nowUs, arrivals[0].h1, arrivals[0].h2).0, arrivals[1..])
  }

  /** The reference filter: a set and a high-water mark, no bitmap. */
  function PlainFilter(rx: u32, accepted: set<u32>, arrivals: seq<Arrival>): (r: (u32, set<u32>))
    ensures accepted <= r.1
    decreases |arrivals|
  {
    if arrivals == [] then (rx, accepted)
    else
      var f := arrivals[0].fcnt;
      if f in accepted || !InReach(rx, f) then PlainFilter(rx, accepted, arrivals[1..])
      else PlainFilter(if f > rx then f else rx, accepted + {f}, arrivals[1..])
  }

  /** Over any sequence of arrivals the 64-bit window and the plain set decide
      alike: the marks agree and the bitmap is the set's last 64 ids. */
  lemma {:induction false} WindowRefinesPlainFilter(s: State, accepted: set<u32>, arrivals: seq<Arrival>)
    requires s.cfg.policy.SlidingWindow? && Represents(s, accepted)
    ensures var t := CommitAll(s, arrivals);
            var (rx, acc) := PlainFilter(s.rx, accepted, arrivals);
            t.cfg == s.cfg && t.rx == rx && Represents(t, acc)
    decreases |arrivals|
  {
    if arrivals != [] {
      var a := arrivals[0];
      CommitAddsToSet(s, accepted, a.fcnt, a.nowUs, a.h1, a.h2);
      var s' := Commit(s, a.fcnt, a.nowUs, a.h1, a.h2).0;
      var accepted' := if a.fcnt in accepted || !InReach(s.rx, a.fcnt) then accepted else accepted + {a.fcnt};
      WindowRefinesPlainFilter(s', accepted', arrivals[1..]);
    }
  }

  /** A fresh window stands for the empty set: even id 0 is admissible once. */
  lemma FreshWindowIsEmpty(cfg: Config)
    ensures Represents(Initial(cfg), {})
    ensures cfg.policy.SlidingWindow? ==> Check(Initial(cfg), 0)
  {
  }

  /** A new session starts with the empty set, whatever was accepted before: every id up to
      1024 is admissible, id 0 too where ids may come out of order. */
  lemma ResetWindowIsEmpty(s: State, fcnt: Fcnt)
    ensures Represents(Reset(s), {})
    ensures Check(Reset(s), fcnt) <==> fcnt <= FORWARD_WINDOW && (fcnt == 0 ==> s.cfg.policy.SlidingWindow?)
  {
    assert fcnt > 0 ==> Wrap32(0 - fcnt) == U32_MOD - fcnt;
  }

  /** When an id can be had: below 2^31, and with its write landed where one is due. */
  lemma AllocatesIff(s: State, lands: bool)
    ensures var (t, a) := Allocate(s, HookFor(lands, Wrap32(s.tx + 1), s.rx));
            && (a.status.Ok? <==> s.tx < FCNT_LIMIT - 1 && (AllocateWrites(s) ==> lands))
            && (a.status.Ok? ==> a.fcnt == t.tx == s.tx + 1)
            && (!a.status.Ok? ==> a.fcnt == 0 && t == s)
  {
  }

  /** A restored window has the whole reach below its mark burned. */
  lemma RestoreBurnsTheWindow(s: State, saved: Snapshot, fcnt: u32)
    ensures fcnt <= Restore(s, saved).rx ==> !Check(Restore(s, saved), fcnt)
  {
    var t := Restore(s, saved);
    if fcnt <= t.rx {
      assert Wrap32(t.rx - fcnt) == t.rx - fcnt;
    }
  }

  /** The hub's ratchet: strictly forward, at most 1024 at a time. */
  lemma RatchetIsForwardOnly(s: State, fcnt: u32, nowUs: int, h1: Hook, h2: Hook)
    requires s.cfg.policy.ForwardRatchet?
    ensures var (t, v) := Commit(s, fcnt, nowUs, h1, h2);
            && (v.Advanced? <==> s.rx < fcnt <= s.rx + FORWARD_WINDOW && s.rx + FORWARD_WINDOW < U32_MOD)
            && (v.Advanced? ==> t.rx == fcnt)
            && !v.Reordered?
  {
  }
}
