/**
 Per-copy work on a packed frame (burst_frame.h): burst position and fire stamp are
 rewritten in place, the six stamp bytes inserted or removed, nothing else touched.
 */
module BurstFrame {
  import opened Machine
  import opened MacWire

  /** The value of a burst frame: its bytes and the fields written into each copy. */
  datatype Burst = Burst(bytes: seq<u8>, ok: bool, idx: u8, cnt: u8, onMark: bool, round: u32, offset: u32)

  function Open(data: seq<u8>): Burst {
    match Decode(data)
    case None => Burst(if |data| <= MAX_FRAME then data else [], false, 0, 0, false, 0, 0)
    case Some(d) => Burst(data, !AuthOf(d.hdr.flags).Fleet?, d.hdr.burstIdx, d.hdr.burstCnt,
                          Has(d.hdr.flags, FLAG_ON_MARK), d.hdr.fireRound, d.hdr.fireOffsetUs)
  }

  predicate Stamped(f: seq<u8>)
    requires |f| > 1
  {
    Has(f[1], FLAG_STAMPED)
  }

  predicate LaidOut(f: seq<u8>) {
    |f| >= FIXED && (Stamped(f) ==> |f| >= FIXED + STAMP)
  }

  /** stampCopy: refused, or the frame with exactly its per-copy fields rewritten. */
  function StampCopy(f: seq<u8>, idx: u8, cnt: u8, onMark: bool, stamped: bool, round: u32, offset: u32)
    : Option<seq<u8>>
  {
    if |f| < FIXED || f[0] != VERSION || Stamped(f) != stamped || HeaderLen(f[1]) + TagLen(f[1]) > |f|
       || (stamped && (round > U24_MAX || offset > U24_MAX)) then None
    else Some([f[0], WithFlag(f[1], FLAG_ON_MARK, onMark)] + f[2..10] + [idx, cnt]
              + (if stamped then Put24(round) + Put24(offset) + f[18..] else f[12..]))
  }

  /** layout_: the six stamp bytes inserted or removed, None when there is no room. */
  function Layout(f: seq<u8>, stamped: bool): Option<seq<u8>>
    requires LaidOut(f)
  {
    if stamped == Stamped(f) then Some(f)
    else if !stamped then Some(Removed(f))
    else if |f| + STAMP > MAX_FRAME then None
    else Some(Inserted(f))
  }

  function Inserted(f: seq<u8>): seq<u8>
    requires |f| >= FIXED
  {
    [f[0], WithFlag(f[1], FLAG_STAMPED, true)] + f[2..12] + [0, 0, 0, 0, 0, 0] + f[12..]
  }

  function Removed(f: seq<u8>): seq<u8>
    requires |f| >= FIXED + STAMP
  {
    [f[0], WithFlag(f[1], FLAG_STAMPED, false)] + f[2..12] + f[18..]
  }

  /** Byte by byte: what the moves and the writes of a copy leave behind. */
  lemma InsertedAt(f: seq<u8>, g: seq<u8>)
    requires |f| >= FIXED && |g| == |f| + STAMP && g[1] == WithFlag(f[1], FLAG_STAMPED, true)
    requires forall i :: 0 <= i < FIXED && i != 1 ==> g[i] == f[i]
    requires forall i :: FIXED <= i < FIXED + STAMP ==> g[i] == 0
    requires forall i :: FIXED + STAMP <= i < |g| ==> g[i] == f[i - STAMP]
    ensures g == Inserted(f)
  {
    var h := Inserted(f);
    assert |h| == |g|;
    forall i | 0 <= i < |g|
      ensures g[i] == h[i]
    {
    }
  }

  lemma RemovedAt(f: seq<u8>, g: seq<u8>)
    requires |f| >= FIXED + STAMP && |g| == |f| - STAMP && g[1] == WithFlag(f[1], FLAG_STAMPED, false)
    requires forall i :: 0 <= i < FIXED && i != 1 ==> g[i] == f[i]
    requires forall i :: FIXED <= i < |g| ==> g[i] == f[i + STAMP]
    ensures g == Removed(f)
  {
    var h := Removed(f);
    assert |h| == |g|;
    forall i | 0 <= i < |g|
      ensures g[i] == h[i]
    {
    }
  }

  lemma CopiedAt(f: seq<u8>, g: seq<u8>, flags: u8, idx: u8, cnt: u8, stamp: seq<u8>)
    requires |g| == |f| >= FIXED + |stamp| && g[1] == flags && g[10] == idx && g[11] == cnt
    requires forall i :: 0 <= i < FIXED && i != 1 && i != 10 && i != 11 ==> g[i] == f[i]
    requires forall i :: 0 <= i < |stamp| ==> g[FIXED + i] == stamp[i]
    requires forall i :: FIXED + |stamp| <= i < |g| ==> g[i] == f[i]
    ensures g == [f[0], flags] + f[2..10] + [idx, cnt] + (stamp + f[FIXED + |stamp|..])
  {
    var h := [f[0], flags] + f[2..10] + [idx, cnt] + (stamp + f[FIXED + |stamp|..]);
    assert |h| == |g|;
    forall i | 0 <= i < |g|
      ensures g[i] == h[i]
    {
      if FIXED <= i < FIXED + |stamp| {
        assert g[FIXED + (i - FIXED)] == stamp[i - FIXED];
      }
    }
  }

  function Write(b: Burst): Burst {
    if !b.ok || |b.bytes| < 2 then b
    else
      match StampCopy(b.bytes, b.idx, b.cnt, b.onMark, Stamped(b.bytes), b.round, b.offset)
      case None => b
      case Some(f) => b.(bytes := f)
  }

  datatype Op =
    | SetBurst(count: int, onMark: bool)
    | SetIndex(k: int)
    | SetFireStamp(stamped: bool, round: u32, offset: u32)

  function Apply(b: Burst, op: Op): (r: Burst)
    requires LaidOut(b.bytes)
    ensures LaidOut(r.bytes)
  {
    match op
    case SetBurst(count, onMark) => Write(b.(cnt := count % 256, onMark := onMark))
    case SetIndex(k) => Write(b.(idx := k % 256))
    case SetFireStamp(stamped, round, offset) =>
      match Layout(b.bytes, stamped)
      case None => b.(ok := false)
      case Some(f) => Write(b.(bytes := f, round := round % 16777216, offset := offset))
  }

  // ---- the object -----------------------------------------------------------

  class WireBurstFrame {
    const buf: array<u8>
    var len: nat
    var ok: bool
    var idx: u8
    var cnt: u8
    var onMark: bool
    var round: u32
    var offset: u32

    ghost predicate Valid()
      reads this, buf
    {
      buf.Length == MAX_FRAME && FIXED <= len <= MAX_FRAME && LaidOut(buf[..len])
    }

    ghost function Value(): Burst
      requires buf.Length == MAX_FRAME && len <= MAX_FRAME
      reads this, buf
    {
      Burst(buf[..len], ok, idx, cnt, onMark, round, offset)
    }

    constructor (data: seq<u8>)
      ensures buf.Length == MAX_FRAME && len <= MAX_FRAME && fresh(buf)
      ensures Value() == Open(data)
      ensures Value().ok ==> Valid()
    {
      buf := new u8[MAX_FRAME](_ => 0);
      len, ok, idx, cnt, onMark, round, offset := 0, false, 0, 0, false, 0, 0;
      new;
      if |data| <= MAX_FRAME {
        CopyIn(data);
        len := |data|;
        ReadFields();
      }
    }

    method CopyIn(data: seq<u8>)
      requires |data| <= MAX_FRAME == buf.Length
      modifies buf
      ensures buf[..|data|] == data
    {
      for i := 0 to |data|
        invariant buf[..i] == data[..i]
      {
        buf[i] := data[i];
      }
    }

    /** Start from what the frame says, so that writing one field never clobbers another. */
    method ReadFields()
      requires buf.Length == MAX_FRAME && len <= MAX_FRAME
      requires !ok && idx == cnt == 0 && !onMark && round == offset == 0
      modifies this`ok, this`idx, this`cnt, this`onMark, this`round, this`offset
      ensures Value() == Open(buf[..len])
    {
      var d := DecodeFrame(buf, len);
      if d.Some? {
        var h := d.value.hdr;
        ok := !AuthOf(h.flags).Fleet?;
        idx, cnt, onMark, round, offset :=
            h.burstIdx, h.burstCnt, Has(h.flags, FLAG_ON_MARK), h.fireRound, h.fireOffsetUs;
      }
    }

    /** Insert the stamp bytes, zero: one overlapping move of the tail. */
    method InsertStamp()
      requires buf.Length == MAX_FRAME && FIXED <= len <= MAX_FRAME - STAMP
      modifies this`len, buf
      ensures len == old(len) + STAMP <= MAX_FRAME
      ensures buf[..len] == Inserted(old(buf[..len]))
    {
      ghost var was := buf[..len];
      forall i | FIXED <= i < len {
        buf[i + STAMP] := buf[i];
      }
      forall i | FIXED <= i < FIXED + STAMP {
        buf[i] := 0;
      }
      len := len + STAMP;
      buf[1] := WithFlag(buf[1], FLAG_STAMPED, true);
      InsertedAt(was, buf[..len]);
    }

    /** Remove the stamp bytes: the move back. */
    method RemoveStamp()
      requires buf.Length == MAX_FRAME && FIXED + STAMP <= len <= MAX_FRAME
      modifies this`len, buf
      ensures len == old(len) - STAMP
      ensures buf[..len] == Removed(old(buf[..len]))
    {
      ghost var was := buf[..len];
      forall i | FIXED <= i < len - STAMP {
        buf[i] := buf[i + STAMP];
      }
      len := len - STAMP;
      buf[1] := WithFlag(buf[1], FLAG_STAMPED, false);
      RemovedAt(was, buf[..len]);
    }

    method SetLayout(stamped: bool) returns (fits: bool)
      requires Valid()
      modifies this`len, buf
      ensures buf.Length == MAX_FRAME && len <= MAX_FRAME
      ensures var l := Layout(old(Value()).bytes, stamped);
              fits == l.Some? && buf[..len] == (if l.Some? then l.value else old(buf[..len]))
    {
      if stamped == Has(buf[1], FLAG_STAMPED) {
        return true;
      }
      if !stamped {
        RemoveStamp();
        return true;
      }
      if len + STAMP > MAX_FRAME {
        return false;
      }
      InsertStamp();
      return true;
    }

    /** write_: stampCopy with the fields of this copy, when the frame is usable. */
    method WriteCopy()
      requires buf.Length == MAX_FRAME && FIXED <= len <= MAX_FRAME
               && (Has(buf[1], FLAG_STAMPED) ==> len >= FIXED + STAMP)
      modifies buf
      ensures Value() == Write(old(Value()))
    {
      ghost var was := buf[..len];
      if !ok || buf[0] != VERSION {
        return;
      }
      var flags := buf[1];
      var stamped := Has(flags, FLAG_STAMPED);
      if HeaderLen(flags) + TagLen(flags) > len || (stamped && (round > U24_MAX || offset > U24_MAX)) {
        return;
      }
      buf[1] := WithFlag(flags, FLAG_ON_MARK, onMark);
      buf[10] := idx;
      buf[11] := cnt;
      if stamped {
        PutStamp(round, offset);
      }
      CopiedAt(was, buf[..len], WithFlag(flags, FLAG_ON_MARK, onMark), idx, cnt,
               if stamped then Put24(round) + Put24(offset) else []);
    }

    method PutStamp(r: u32, o: u32)
      requires buf.Length == MAX_FRAME
      modifies buf
      ensures var b := Put24(r) + Put24(o); forall i :: 0 <= i < STAMP ==> buf[FIXED + i] == b[i]
      ensures forall i :: 0 <= i < MAX_FRAME && !(12 <= i < 18) ==> buf[i] == old(buf[i])
    {
      var b := Put24(r) + Put24(o);
      buf[12], buf[13], buf[14], buf[15], buf[16], buf[17] := b[0], b[1], b[2], b[3], b[4], b[5];
      assert buf[FIXED + 0] == b[0] && buf[FIXED + 1] == b[1] && buf[FIXED + 2] == b[2] && buf[FIXED + 3] == b[3]
          && buf[FIXED + 4] == b[4] && buf[FIXED + 5] == b[5];
    }

    method SetBurstCount(count: int, mark: bool)
      requires Valid()
      modifies this`cnt, this`onMark, buf
      ensures Value() == Apply(old(Value()), SetBurst(count, mark))
    {
      cnt := count % 256;
      onMark := mark;
      WriteCopy();
    }

    method SetCopyIndex(k: int)
      requires Valid()
      modifies this`idx, buf
      ensures Value() == Apply(old(Value()), SetIndex(k))
    {
      idx := k % 256;
      WriteCopy();
    }

    method SetStamp(stamped: bool, r: u32, o: u32)
      requires Valid()
      modifies this, buf
      ensures buf.Length == MAX_FRAME && len <= MAX_FRAME
      ensures Value() == Apply(old(Value()), SetFireStamp(stamped, r, o))
    {
      ghost var was := buf[..len];
      var fits := SetLayout(stamped);
      if !fits {
        ok := false;
        return;
      }
      LayoutKeepsTheFrame(was, stamped);
      round := r % 16777216;
      offset := o;
      WriteCopy();
    }
  }

  // ---- what no copy may touch -----------------------------------------------

  /** Everything after the stamp bytes, or after the fixed part when there are none:
      the other extensions, the body and the tag. */
  function Tail(f: seq<u8>): seq<u8>
    requires LaidOut(f)
  {
    if Stamped(f) then f[18..] else f[12..]
  }

  /** The same frame but for its per-copy fields. */
  predicate SameFrame(f: seq<u8>, g: seq<u8>) {
    && LaidOut(f) && LaidOut(g)
    && f[0] == g[0] && f[1] / 4 == g[1] / 4 && f[2..10] == g[2..10] && Tail(f) == Tail(g)
  }

  lemma SliceOfSlice(s: seq<u8>, a: nat, b: nat, i: nat, j: nat)
    requires a <= b <= |s| && i <= j <= b - a
    ensures s[a..b][i..j] == s[a + i..a + j]
  {
    var u, v := s[a..b][i..j], s[a + i..a + j];
    assert |u| == |v|;
    forall k | 0 <= k < j - i
      ensures u[k] == v[k]
    {
      assert u[k] == s[a..b][i + k] == s[a + (i + k)];
      assert v[k] == s[(a + i) + k];
    }
  }

  /** Four parts put together, seen again. */
  lemma FourParts(a: seq<u8>, b: seq<u8>, c: seq<u8>, d: seq<u8>)
    ensures var g := a + b + c + d;
            g[|a|..|a| + |b|] == b && g[|a| + |b| + |c|..] == d
  {
    var g := a + b + c + d;
    assert g == a + (b + (c + d));
    forall i | 0 <= i < |b|
      ensures g[|a|..|a| + |b|][i] == b[i]
    {
      assert g[|a| + i] == (b + (c + d))[i];
    }
  }

  lemma StampCopyKeepsTheFrame(f: seq<u8>, idx: u8, cnt: u8, onMark: bool, stamped: bool, round: u32, offset: u32)
    requires LaidOut(f) && StampCopy(f, idx, cnt, onMark, stamped, round, offset).Some?
    ensures var g := StampCopy(f, idx, cnt, onMark, stamped, round, offset).value;
            && SameFrame(f, g) && |g| == |f| && Stamped(g) == stamped
            && g[10] == idx && g[11] == cnt && Has(g[1], FLAG_ON_MARK) == onMark
            && (stamped ==> Get24(g, 12) == round && Get24(g, 15) == offset)
  {
    var g := StampCopy(f, idx, cnt, onMark, stamped, round, offset).value;
    var rest := if stamped then Put24(round) + Put24(offset) + f[18..] else f[12..];
    FourParts([f[0], WithFlag(f[1], FLAG_ON_MARK, onMark)], f[2..10], [idx, cnt], rest);
    assert g[2..10] == f[2..10] && g[12..] == rest;
    if stamped {
      assert g[12..15] == rest[..3] == Put24(round) && g[15..18] == rest[3..6] == Put24(offset);
      GetPut24(g, 12, round);
      GetPut24(g, 15, offset);
      assert g[18..] == rest[6..] == f[18..];
    }
  }

  lemma LayoutKeepsTheFrame(f: seq<u8>, stamped: bool)
    requires LaidOut(f) && Layout(f, stamped).Some?
    ensures var g := Layout(f, stamped).value;
            && SameFrame(f, g) && Stamped(g) == stamped && g[10] == f[10] && g[11] == f[11]
            && Has(g[1], FLAG_ON_MARK) == Has(f[1], FLAG_ON_MARK)
  {
    var g := Layout(f, stamped).value;
    if stamped && !Stamped(f) {
      InsertedParts(f);
    }
    if !stamped && Stamped(f) {
      RemovedParts(f);
    }
  }

  lemma InsertedParts(f: seq<u8>)
    requires |f| >= FIXED
    ensures var g := Inserted(f);
            && |g| == |f| + STAMP && g[0] == f[0] && g[1] == WithFlag(f[1], FLAG_STAMPED, true)
            && g[2..12] == f[2..12] && g[2..10] == f[2..10] && g[10] == f[10] && g[11] == f[11] && g[18..] == f[12..]
  {
    var g := Inserted(f);
    FourParts([f[0], WithFlag(f[1], FLAG_STAMPED, true)], f[2..12], [0, 0, 0, 0, 0, 0], f[12..]);
    SliceOfSlice(g, 2, 12, 0, 8);
    SliceOfSlice(f, 2, 12, 0, 8);
    assert g[10] == g[2..12][8] && g[11] == g[2..12][9];
  }

  lemma RemovedParts(f: seq<u8>)
    requires |f| >= FIXED + STAMP
    ensures var g := Removed(f);
            && |g| == |f| - STAMP && g[0] == f[0] && g[1] == WithFlag(f[1], FLAG_STAMPED, false)
            && g[2..12] == f[2..12] && g[2..10] == f[2..10] && g[10] == f[10] && g[11] == f[11] && g[12..] == f[18..]
  {
    var g := Removed(f);
    FourParts([f[0], WithFlag(f[1], FLAG_STAMPED, false)], f[2..12], [], f[18..]);
    assert g == [f[0], WithFlag(f[1], FLAG_STAMPED, false)] + f[2..12] + [] + f[18..];
    SliceOfSlice(g, 2, 12, 0, 8);
    SliceOfSlice(f, 2, 12, 0, 8);
    assert g[10] == g[2..12][8] && g[11] == g[2..12][9];
  }

  /** Inserting the stamp bytes and removing them again gives the frame back. */
  lemma InsertThenRemove(f: seq<u8>)
    requires LaidOut(f) && !Stamped(f)
    ensures Layout(f, true).Some? <==> |f| + STAMP <= MAX_FRAME
    ensures Layout(f, true).Some? ==> LaidOut(Layout(f, true).value) && Layout(Layout(f, true).value, false) == Some(f)
  {
    if Layout(f, true).Some? {
      var g := Layout(f, true).value;
      InsertedParts(f);
      assert WithFlag(g[1], FLAG_STAMPED, false) == f[1];
      assert Layout(g, false).value == f;
    }
  }

  // ---- what the same frame decodes to ---------------------------------------

  function FlagsWith(flags: u8, stamped: bool, onMark: bool): u8 {
    flags / 4 * 4 + (if stamped then 1 else 0) + (if onMark then 2 else 0)
  }

  lemma LowFlags(f: u8)
    ensures f == FlagsWith(f, Has(f, FLAG_STAMPED), Has(f, FLAG_ON_MARK))
  {
    assert f % 4 == 2 * (f / 2 % 2) + f % 2;
  }

  lemma SameFrameSizes(f: seq<u8>, g: seq<u8>)
    requires SameFrame(f, g) && Shaped(f) && |g| <= MAX_FRAME
    ensures Shaped(g) && TagLen(f[1]) == TagLen(g[1])
    ensures NonceOff(f[1]) - AckOff(f[1]) == NonceOff(g[1]) - AckOff(g[1])
    ensures HeaderLen(f[1]) - NonceOff(f[1]) == HeaderLen(g[1]) - NonceOff(g[1])
    ensures |f| - NonceOff(f[1]) == |g| - NonceOff(g[1])
  {
    UpperFlags(f[1], g[1]);
    assert f[9] == f[2..10][7] && g[9] == g[2..10][7];
    assert |Tail(f)| == |f| - NonceOff(f[1]) && |Tail(g)| == |g| - NonceOff(g[1]);
  }

  lemma Put32IsInjective(v: u32, w: u32)
    requires Put32(v) == Put32(w)
    ensures v == w
  {
    GetPut32(Put32(v), 0, v);
    GetPut32(Put32(w), 0, w);
  }

  lemma SameWord(f: seq<u8>, i: nat, g: seq<u8>, j: nat)
    requires i + 4 <= |f| && j + 4 <= |g| && f[i..i + 4] == g[j..j + 4]
    ensures Get32(f, i) == Get32(g, j)
  {
    PutGet32(f, i);
    PutGet32(g, j);
    Put32IsInjective(Get32(f, i), Get32(g, j));
  }

  /** A slice of the tail, seen from either frame. */
  lemma SameTailSlice(f: seq<u8>, g: seq<u8>, from: nat, n: nat)
    requires SameFrame(f, g) && from + n <= |Tail(f)|
    ensures var i, j := NonceOff(f[1]) + from, NonceOff(g[1]) + from;
            i + n <= |f| && j + n <= |g| && f[i..i + n] == g[j..j + n]
  {
    var i, j := NonceOff(f[1]) + from, NonceOff(g[1]) + from;
    SliceOfSlice(f, NonceOff(f[1]), |f|, from, from + n);
    SliceOfSlice(g, NonceOff(g[1]), |g|, from, from + n);
    assert f[NonceOff(f[1])..|f|] == Tail(f) && g[NonceOff(g[1])..|g|] == Tail(g);
  }

  lemma SameFixedFields(f: seq<u8>, g: seq<u8>)
    requires SameFrame(f, g)
    ensures f[2] == g[2] && f[3] == g[3] && f[4] == g[4] && f[9] == g[9] && Get32(f, 5) == Get32(g, 5)
  {
    assert g[2] == g[2..10][0] == f[2..10][0] && g[3] == g[2..10][1] == f[2..10][1];
    assert g[4] == g[2..10][2] == f[2..10][2] && g[9] == g[2..10][7] == f[2..10][7];
    SliceOfSlice(f, 2, 10, 3, 7);
    SliceOfSlice(g, 2, 10, 3, 7);
    SameWord(f, 5, g, 5);
  }

  lemma SameExtensions(f: seq<u8>, g: seq<u8>)
    requires SameFrame(f, g) && Shaped(f) && Shaped(g)
    ensures Has(f[1], FLAG_SESSION_OPENING) == Has(g[1], FLAG_SESSION_OPENING)
            && Has(f[1], FLAG_ACK) == Has(g[1], FLAG_ACK)
    ensures Has(f[1], FLAG_SESSION_OPENING) ==> Get32(f, NonceOff(f[1])) == Get32(g, NonceOff(g[1]))
    ensures Has(f[1], FLAG_ACK) ==> Get32(f, AckOff(f[1])) == Get32(g, AckOff(g[1]))
  {
    UpperFlags(f[1], g[1]);
    if Has(f[1], FLAG_SESSION_OPENING) {
      SameTailSlice(f, g, 0, 4);
      SameWord(f, NonceOff(f[1]), g, NonceOff(g[1]));
    }
    if Has(f[1], FLAG_ACK) {
      SameTailSlice(f, g, AckOff(f[1]) - NonceOff(f[1]), 4);
      SameWord(f, AckOff(f[1]), g, AckOff(g[1]));
    }
  }

  lemma SameBody(f: seq<u8>, g: seq<u8>)
    requires SameFrame(f, g) && Shaped(f) && |g| <= MAX_FRAME
    ensures HeaderLen(f[1]) <= |f| && HeaderLen(g[1]) <= |g| && f[HeaderLen(f[1])..] == g[HeaderLen(g[1])..]
  {
    SameFrameSizes(f, g);
    var k := HeaderLen(f[1]) - NonceOff(f[1]);
    SameTailSlice(f, g, k, |Tail(f)| - k);
    assert f[HeaderLen(f[1])..] == f[HeaderLen(f[1])..|f|] && g[HeaderLen(g[1])..] == g[HeaderLen(g[1])..|g|];
  }

  /** Addresses, counter, port, nonce and acked id, the other flags and every byte of
      body and tag are those of the original frame. */
  lemma SameFrameDecodesAlike(f: seq<u8>, g: seq<u8>)
    requires SameFrame(f, g) && Shaped(f) && |g| <= MAX_FRAME
    ensures Decode(g).Some?
    ensures var d, e := Decode(f).value, Decode(g).value;
            && e.hdr == d.hdr.(flags := FlagsWith(d.hdr.flags, Stamped(g), Has(g[1], FLAG_ON_MARK)),
                               burstIdx := g[10], burstCnt := g[11],
                               fireRound := if Stamped(g) then Get24(g, 12) else 0,
                               fireOffsetUs := if Stamped(g) then Get24(g, 15) else 0)
            && e.bodyLen == d.bodyLen && g[e.bodyOff..] == f[d.bodyOff..]
  {
    SameFrameSizes(f, g);
    SameBody(f, g);
    LowFlags(g[1]);
    SameFixedFields(f, g);
    SameExtensions(f, g);
  }

  // ---- whole bursts ---------------------------------------------------------

  /** A usable frame whose bytes show the fields it holds. */
  predicate InSync(b: Burst) {
    && b.ok && Shaped(b.bytes) && LaidOut(b.bytes)
    && b.bytes[10] == b.idx && b.bytes[11] == b.cnt && Has(b.bytes[1], FLAG_ON_MARK) == b.onMark
    && (Stamped(b.bytes) ==> b.round <= U24_MAX && b.offset <= U24_MAX
                             && Get24(b.bytes, 12) == b.round && Get24(b.bytes, 15) == b.offset)
  }

  lemma OpenIsInSync(data: seq<u8>)
    requires Open(data).ok
    ensures InSync(Open(data)) && Open(data).bytes == data
  {
    EncodeDecode(data);
  }

  predicate InRange(op: Op) {
    op.SetFireStamp? && op.stamped ==> op.offset <= U24_MAX
  }

  predicate AsksForStamp(op: Op) {
    op.SetFireStamp? && op.stamped
  }

  /** Whether the frame has room for the stamp bytes, wherever it is in its burst. */
  predicate Room(f: seq<u8>)
    requires LaidOut(f)
  {
    FIXED + STAMP + |Tail(f)| <= MAX_FRAME
  }

  /** What a run of calls asks the copy to carry: the last value of each field. */
  datatype Copy = Copy(idx: u8, cnt: u8, onMark: bool, stamped: bool, round: u32, offset: u32)

  function CopyOf(b: Burst): Copy
    requires |b.bytes| > 1
  {
    Copy(b.idx, b.cnt, b.onMark, Stamped(b.bytes), b.round, b.offset)
  }

  function Asked(c: Copy, ops: seq<Op>): Copy
    decreases |ops|
  {
    if ops == [] then c
    else Asked(match ops[0]
               case SetBurst(count, onMark) => c.(cnt := count % 256, onMark := onMark)
               case SetIndex(k) => c.(idx := k % 256)
               case SetFireStamp(on, round, offset) => c.(stamped := on, round := round % 16777216, offset := offset),
               ops[1..])
  }

  function After(b: Burst, ops: seq<Op>): (r: Burst)
    requires LaidOut(b.bytes)
    ensures LaidOut(r.bytes)
    decreases |ops|
  {
    if ops == [] then b else After(Apply(b, ops[0]), ops[1..])
  }

  lemma WriteKeepsSync(b: Burst)
    requires b.ok && Shaped(b.bytes) && LaidOut(b.bytes) && b.round <= U24_MAX
    requires Stamped(b.bytes) ==> b.offset <= U24_MAX
    ensures InSync(Write(b)) && SameFrame(b.bytes, Write(b).bytes)
    ensures Stamped(Write(b).bytes) == Stamped(b.bytes) && Write(b) == b.(bytes := Write(b).bytes)
  {
    StampCopyKeepsTheFrame(b.bytes, b.idx, b.cnt, b.onMark, Stamped(b.bytes), b.round, b.offset);
    SameFrameDecodesAlike(b.bytes, Write(b).bytes);
  }

  lemma StampKeepsSync(b: Burst, on: bool, round: u32, offset: u32)
    requires InSync(b) && (on ==> offset <= U24_MAX && Room(b.bytes))
    ensures var r := Apply(b, SetFireStamp(on, round, offset));
            InSync(r) && r.round <= U24_MAX && SameFrame(b.bytes, r.bytes)
            && CopyOf(r) == CopyOf(b).(stamped := on, round := round % 16777216, offset := offset)
  {
    assert |Tail(b.bytes)| == |b.bytes| - NonceOff(b.bytes[1]);
    LayoutKeepsTheFrame(b.bytes, on);
    var f := Layout(b.bytes, on).value;
    SameFrameSizes(b.bytes, f);
    WriteKeepsSync(b.(bytes := f, round := round % 16777216, offset := offset));
  }

  lemma StepKeepsSync(b: Burst, op: Op)
    requires InSync(b) && InRange(op) && b.round <= U24_MAX && (AsksForStamp(op) ==> Room(b.bytes))
    ensures var r := Apply(b, op);
            InSync(r) && r.round <= U24_MAX && SameFrame(b.bytes, r.bytes) && CopyOf(r) == Asked(CopyOf(b), [op])
  {
    assert [op][1..] == [];
    match op
    case SetBurst(count, onMark) => WriteKeepsSync(b.(cnt := count % 256, onMark := onMark));
    case SetIndex(k) => WriteKeepsSync(b.(idx := k % 256));
    case SetFireStamp(on, round, offset) => StampKeepsSync(b, on, round, offset);
  }

  /** A burst with room, whole: the frame stays decodable and the same, and its bytes
      show the last value of each per-copy field. */
  lemma {:induction false} RunKeepsSync(b: Burst, ops: seq<Op>)
    requires InSync(b) && b.round <= U24_MAX
    requires forall op <- ops :: InRange(op) && (AsksForStamp(op) ==> Room(b.bytes))
    ensures var r := After(b, ops);
            InSync(r) && r.round <= U24_MAX && SameFrame(b.bytes, r.bytes) && CopyOf(r) == Asked(CopyOf(b), ops)
    decreases |ops|
  {
    if ops != [] {
      StepKeepsSync(b, ops[0]);
      RunKeepsSync(Apply(b, ops[0]), ops[1..]);
    }
  }

  /** Opened, worked on, and read back by a receiver: exactly the per-copy fields
      differ from the packed frame, and they are the last ones asked for. */
  lemma BurstWritesOnlyItsCopyFields(data: seq<u8>, ops: seq<Op>)
    requires Open(data).ok && LaidOut(data)
    requires forall op <- ops :: InRange(op) && (AsksForStamp(op) ==> Room(data))
    ensures var d, c, out := Decode(data).value, Asked(CopyOf(Open(data)), ops), After(Open(data), ops).bytes;
            && Decode(out).Some?
            && Decode(out).value.hdr == d.hdr.(flags := FlagsWith(d.hdr.flags, c.stamped, c.onMark),
                                               burstIdx := c.idx, burstCnt := c.cnt,
                                               fireRound := if c.stamped then c.round else 0,
                                               fireOffsetUs := if c.stamped then c.offset else 0)
            && out[Decode(out).value.bodyOff..] == data[d.bodyOff..]
  {
    OpenIsInSync(data);
    EncodeDecode(data);
    RunKeepsSync(Open(data), ops);
    SameFrameDecodesAlike(data, After(Open(data), ops).bytes);
  }

  /** Without room the first stamped copy closes the frame for good, its bytes as packed
      but for the per-copy fields written before. */
  lemma NoRoomCloses(b: Burst, op: Op)
    requires InSync(b) && !Room(b.bytes)
    ensures !Stamped(b.bytes)
    ensures AsksForStamp(op) ==> Apply(b, op) == b.(ok := false)
  {
    assert |Tail(b.bytes)| == |b.bytes| - NonceOff(b.bytes[1]);
  }

  lemma {:induction false} ClosedStaysClosed(b: Burst, ops: seq<Op>)
    requires !b.ok && LaidOut(b.bytes) && !Stamped(b.bytes) && !Room(b.bytes)
    ensures var r := After(b, ops); !r.ok && r.bytes == b.bytes
    decreases |ops|
  {
    if ops != [] {
      ClosedStaysClosed(Apply(b, ops[0]), ops[1..]);
    }
  }

  /** The exact guard of a rewrite: an offset that does not fit 24 bits is kept by the
      object, and from then on no copy is rewritten, although the frame stays usable. */
  lemma LateOffsetFreezesTheCopy(b: Burst, op: Op)
    requires b.ok && Shaped(b.bytes) && LaidOut(b.bytes) && b.round <= U24_MAX && !op.SetFireStamp?
    ensures Stamped(b.bytes) && b.offset > U24_MAX ==> Apply(b, op).bytes == b.bytes && Apply(b, op).ok
    ensures !(Stamped(b.bytes) && b.offset > U24_MAX) ==> InSync(Apply(b, op))
  {
    if !Stamped(b.bytes) || b.offset <= U24_MAX {
      match op
      case SetBurst(count, onMark) => WriteKeepsSync(b.(cnt := count % 256, onMark := onMark));
      case SetIndex(k) => WriteKeepsSync(b.(idx := k % 256));
    }
  }

  // ---- a closed frame -------------------------------------------------------

  predicate ChangesLayout(b: Burst, op: Op)
    requires LaidOut(b.bytes)
  {
    op.SetFireStamp? && op.stamped != Stamped(b.bytes) && (op.stamped ==> |b.bytes| + STAMP <= MAX_FRAME)
  }

  /** Exactly when a call keeps the bytes of a frame that is closed or was never open: it
      does not change the layout, or has no room to. */
  lemma ClosedIsVerbatimIff(b: Burst, op: Op)
    requires !b.ok && LaidOut(b.bytes)
    ensures Apply(b, op).bytes == b.bytes <==> !ChangesLayout(b, op)
    ensures !Apply(b, op).ok
  {
    if ChangesLayout(b, op) {
      assert |Apply(b, op).bytes| != |b.bytes|;
    }
  }

  /** The same over whole runs: a closed frame goes out verbatim if no call changes its
      layout, and the first that does changes its bytes. */
  lemma {:induction false} ClosedRunIsVerbatim(b: Burst, ops: seq<Op>)
    requires !b.ok && LaidOut(b.bytes) && forall op <- ops :: !ChangesLayout(b, op)
    ensures var r := After(b, ops); !r.ok && r.bytes == b.bytes
    decreases |ops|
  {
    if ops != [] {
      assert ops[0] in ops && forall op <- ops[1..] :: op in ops;
      ClosedIsVerbatimIff(b, ops[0]);
      assert forall op <- ops :: ChangesLayout(Apply(b, ops[0]), op) <==> ChangesLayout(b, op);
      ClosedRunIsVerbatim(Apply(b, ops[0]), ops[1..]);
    }
  }

  /** A FLEET frame is never open, and with room for the stamp one stamped call changes
      its bytes all the same. */
  lemma FleetIsRestamped(data: seq<u8>, round: u32, offset: u32)
    requires Shaped(data) && AuthOf(data[1]).Fleet? && !Stamped(data) && |data| + STAMP <= MAX_FRAME
    ensures !Open(data).ok && LaidOut(data) && Open(data).bytes == data
    ensures Apply(Open(data), SetFireStamp(true, round, offset)).bytes != data
  {
    ClosedIsVerbatimIff(Open(data), SetFireStamp(true, round, offset));
  }

  /** Such a frame: twenty bytes, AUTH = FLEET, an empty body and an 8-byte tag. */
  lemma SomeFleetFrame()
    ensures var data: seq<u8> := [1, 96, 0, 0, 0, 0, 0, 0, 0, 0, 0, 1, 0, 0, 0, 0, 0, 0, 0, 0];
            Shaped(data) && AuthOf(data[1]).Fleet? && !Stamped(data) && |data| + STAMP <= MAX_FRAME
  {
  }
}
