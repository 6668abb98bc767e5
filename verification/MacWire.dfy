/**
 The fixed-offset frame header of MAC wire format v1 (MacWire.h): a codec whose
 two directions undo each other.
 */
module MacWire {
  import opened Machine

  const VERSION: int := 1
  const FIXED: nat := 12
  const STAMP: nat := 6
  const TAG: nat := 8
  const MAX_FRAME: nat := 255
  const MAX_PORT: int := 2
  const U24_MAX: int := 0xFF_FFFF

  const FLAG_STAMPED: int := 1
  const FLAG_ON_MARK: int := 2
  const FLAG_ACK: int := 8
  const FLAG_SESSION_OPENING: int := 16
  const FLAG_RESERVED: int := 128

  datatype Auth = NoAuth | Session | KAuth | Fleet

  // ---- single bits of the flags byte ----------------------------------------

  predicate Has(flags: u8, bit: int)
    requires bit > 0
  {
    (flags / bit) % 2 == 1
  }

  function AuthOf(flags: u8): Auth {
    match (flags / 32) % 4
    case 0 => NoAuth
    case 1 => Session
    case 2 => KAuth
    case _ => Fleet
  }

  /** `flags` with STAMPED or ON_MARK forced on or off. */
  function WithFlag(flags: u8, bit: int, on: bool): (r: u8)
    requires bit == FLAG_STAMPED || bit == FLAG_ON_MARK
    ensures Has(r, bit) == on
    ensures r / 4 == flags / 4
    ensures bit == FLAG_STAMPED ==> Has(r, FLAG_ON_MARK) == Has(flags, FLAG_ON_MARK)
    ensures bit == FLAG_ON_MARK ==> Has(r, FLAG_STAMPED) == Has(flags, FLAG_STAMPED)
  {
    flags - (if Has(flags, bit) then bit else 0) + (if on then bit else 0)
  }

  /** Every flag but STAMPED and ON_MARK lives in the upper six bits. */
  lemma UpperFlags(f: u8, g: u8)
    requires f / 4 == g / 4
    ensures Has(f, FLAG_ACK) == Has(g, FLAG_ACK) && Has(f, FLAG_SESSION_OPENING) == Has(g, FLAG_SESSION_OPENING)
    ensures Has(f, FLAG_RESERVED) == Has(g, FLAG_RESERVED) && AuthOf(f) == AuthOf(g)
  {
    Halves(f);
    Halves(g);
  }

  lemma Halves(f: u8)
    ensures f / 8 == f / 4 / 2 && f / 16 == f / 8 / 2 && f / 32 == f / 16 / 2 && f / 64 == f / 32 / 2
    ensures f / 128 == f / 64 / 2
  {
  }

  function HeaderLen(flags: u8): nat {
    FIXED + (if Has(flags, FLAG_STAMPED) then STAMP else 0)
    + (if Has(flags, FLAG_SESSION_OPENING) then 4 else 0) + (if Has(flags, FLAG_ACK) then 4 else 0)
  }

  function TagLen(flags: u8): nat {
    if AuthOf(flags).NoAuth? then 0 else TAG
  }

  // ---- big-endian fields ----------------------------------------------------

  /** Shifting right by 8, 16 and 24 is dividing by 256 once, twice and three times. */
  function Put24(v: u32): (b: seq<u8>)
    ensures |b| == 3
  {
    [(v / 256 / 256) % 256, (v / 256) % 256, v % 256]
  }

  function Put32(v: u32): (b: seq<u8>)
    ensures |b| == 4
  {
    [(v / 256 / 256 / 256) % 256, (v / 256 / 256) % 256, (v / 256) % 256, v % 256]
  }

  function Get24(s: seq<u8>, at: nat): u32
    requires at + 3 <= |s|
  {
    Join(Join(s[at], s[at + 1]), s[at + 2])
  }

  function Get32(s: seq<u8>, at: nat): u32
    requires at + 4 <= |s|
  {
    Join(Join(Join(s[at], s[at + 1]), s[at + 2]), s[at + 3])
  }

  /** `(hi << 8) | lo`. */
  function Join(hi: nat, lo: u8): (r: nat)
    ensures r / 256 == hi && r % 256 == lo && r < (hi + 1) * 256
  {
    hi * 256 + lo
  }

  lemma JoinDigits(v: nat)
    ensures Join(v / 256, v % 256) == v
  {
  }

  lemma GetPut24(s: seq<u8>, at: nat, v: u32)
    requires at + 3 <= |s| && s[at..at + 3] == Put24(v) && v <= U24_MAX
    ensures Get24(s, at) == v
  {
    assert s[at] == s[at..at + 3][0] && s[at + 1] == s[at..at + 3][1] && s[at + 2] == s[at..at + 3][2];
    JoinDigits(v);
    JoinDigits(v / 256);
  }

  lemma GetPut32(s: seq<u8>, at: nat, v: u32)
    requires at + 4 <= |s| && s[at..at + 4] == Put32(v)
    ensures Get32(s, at) == v
  {
    assert s[at] == s[at..at + 4][0] && s[at + 1] == s[at..at + 4][1] && s[at + 2] == s[at..at + 4][2]
        && s[at + 3] == s[at..at + 4][3];
    JoinDigits(v);
    JoinDigits(v / 256);
    JoinDigits(v / 256 / 256);
  }

  lemma PutGet24(s: seq<u8>, at: nat)
    requires at + 3 <= |s|
    ensures Put24(Get24(s, at)) == s[at..at + 3]
  {
    JoinDigits(Get24(s, at));
  }

  lemma PutGet32(s: seq<u8>, at: nat)
    requires at + 4 <= |s|
    ensures Put32(Get32(s, at)) == s[at..at + 4]
  {
    JoinDigits(Get32(s, at));
  }

  // ---- the header -----------------------------------------------------------

  datatype WireHdr = WireHdr(flags: u8, dst: u8, src: u8, subnet: u8, fcnt: u32, port: u8,
                             burstIdx: u8, burstCnt: u8, fireRound: u32, fireOffsetUs: u32,
                             nodeNonce: u32, ackedFcnt: u32)

  datatype Decoded = Decoded(hdr: WireHdr, bodyOff: nat, bodyLen: nat)

  predicate Encodable(h: WireHdr) {
    && !Has(h.flags, FLAG_RESERVED) && h.port <= MAX_PORT
    && (Has(h.flags, FLAG_STAMPED) ==> h.fireRound <= U24_MAX && h.fireOffsetUs <= U24_MAX)
  }

  function FixedPart(h: WireHdr): (b: seq<u8>)
    ensures |b| == FIXED
  {
    [VERSION, h.flags, h.dst, h.src, h.subnet] + Put32(h.fcnt) + [h.port, h.burstIdx, h.burstCnt]
  }

  function StampPart(h: WireHdr): seq<u8> {
    if Has(h.flags, FLAG_STAMPED) then Put24(h.fireRound) + Put24(h.fireOffsetUs) else []
  }

  function NoncePart(h: WireHdr): seq<u8> {
    if Has(h.flags, FLAG_SESSION_OPENING) then Put32(h.nodeNonce) else []
  }

  function AckPart(h: WireHdr): seq<u8> {
    if Has(h.flags, FLAG_ACK) then Put32(h.ackedFcnt) else []
  }

  /** The header's bytes on the air. */
  function Header(h: WireHdr): (b: seq<u8>)
    ensures |b| == HeaderLen(h.flags)
  {
    FixedPart(h) + StampPart(h) + NoncePart(h) + AckPart(h)
  }

  /** Shape checks only, in the source's order. */
  predicate Shaped(s: seq<u8>) {
    && FIXED <= |s| <= MAX_FRAME
    && s[0] == VERSION && !Has(s[1], FLAG_RESERVED) && s[9] <= MAX_PORT
    && HeaderLen(s[1]) + TagLen(s[1]) <= |s|
  }

  function NonceOff(flags: u8): nat {
    FIXED + (if Has(flags, FLAG_STAMPED) then STAMP else 0)
  }

  function AckOff(flags: u8): nat {
    NonceOff(flags) + (if Has(flags, FLAG_SESSION_OPENING) then 4 else 0)
  }

  function HdrOf(s: seq<u8>): WireHdr
    requires Shaped(s)
  {
    var f := s[1];
    WireHdr(f, s[2], s[3], s[4], Get32(s, 5), s[9], s[10], s[11],
            if Has(f, FLAG_STAMPED) then Get24(s, 12) else 0,
            if Has(f, FLAG_STAMPED) then Get24(s, 15) else 0,
            if Has(f, FLAG_SESSION_OPENING) then Get32(s, NonceOff(f)) else 0,
            if Has(f, FLAG_ACK) then Get32(s, AckOff(f)) else 0)
  }

  function Decode(s: seq<u8>): Option<Decoded> {
    if !Shaped(s) then None
    else Some(Decoded(HdrOf(s), HeaderLen(s[1]), |s| - HeaderLen(s[1]) - TagLen(s[1])))
  }

  /** The header without the fields its flags leave out. */
  function Canonical(h: WireHdr): WireHdr {
    h.(fireRound := if Has(h.flags, FLAG_STAMPED) then h.fireRound else 0,
       fireOffsetUs := if Has(h.flags, FLAG_STAMPED) then h.fireOffsetUs else 0,
       nodeNonce := if Has(h.flags, FLAG_SESSION_OPENING) then h.nodeNonce else 0,
       ackedFcnt := if Has(h.flags, FLAG_ACK) then h.ackedFcnt else 0)
  }

  lemma FixedBytes(h: WireHdr, rest: seq<u8>)
    ensures var s := FixedPart(h) + rest;
            && s[0] == VERSION && s[1] == h.flags && s[2] == h.dst && s[3] == h.src && s[4] == h.subnet
            && s[5..9] == Put32(h.fcnt) && s[9] == h.port && s[10] == h.burstIdx && s[11] == h.burstCnt
  {
    var s := FixedPart(h) + rest;
    assert s[5..9] == FixedPart(h)[5..9] == Put32(h.fcnt);
  }

  /** The number n bytes from `at` on spell, the first byte the highest. */
  function BigEndian(s: seq<u8>, at: nat, n: nat): nat
    requires at + n <= |s|
  {
    if n == 0 then 0 else BigEndian(s, at, n - 1) * 256 + s[at + n - 1]
  }

  /** The layout of the specification, byte by byte: version, flags, destination, source and
      subnet in bytes 0 to 4, the counter in 5 to 8, the port in 9, the place in the burst in
      10 and 11; then, each only if its flag is set, round and offset, nonce, and acked id. */
  lemma LayoutOnTheAir(h: WireHdr)
    requires Encodable(h)
    ensures var s := Header(h);
            && s[0] == 1 && s[1] == h.flags && s[2] == h.dst && s[3] == h.src && s[4] == h.subnet
            && AuthOf(s[1]) == [NoAuth, Session, KAuth, Fleet][(s[1] / 32) % 4]
            && BigEndian(s, 5, 4) == h.fcnt && s[9] == h.port && s[10] == h.burstIdx && s[11] == h.burstCnt
    ensures var s, f := Header(h), h.flags;
            var stamped, opening, acks := (f / 1) % 2 == 1, (f / 16) % 2 == 1, (f / 8) % 2 == 1;
            var nonceAt := if stamped then 18 else 12;
            var ackAt := if opening then nonceAt + 4 else nonceAt;
            && |s| == (if acks then ackAt + 4 else ackAt)
            && (stamped ==> BigEndian(s, 12, 3) == h.fireRound && BigEndian(s, 15, 3) == h.fireOffsetUs)
            && (opening ==> BigEndian(s, nonceAt, 4) == h.nodeNonce)
            && (acks ==> BigEndian(s, ackAt, 4) == h.ackedFcnt)
  {
    var s := Header(h);
    assert Header(h) + [] == Header(h);
    assert s == FixedPart(h) + (StampPart(h) + NoncePart(h) + AckPart(h));
    FixedBytes(h, StampPart(h) + NoncePart(h) + AckPart(h));
    PartsInPlace(h, []);
    Spells32(s, 5, h.fcnt);
    if Has(h.flags, FLAG_STAMPED) {
      Spells24(s, 12, h.fireRound);
      Spells24(s, 15, h.fireOffsetUs);
    }
    if Has(h.flags, FLAG_SESSION_OPENING) {
      Spells32(s, NonceOff(h.flags), h.nodeNonce);
    }
    if Has(h.flags, FLAG_ACK) {
      Spells32(s, AckOff(h.flags), h.ackedFcnt);
    }
  }

  /** A frame is its header, its body and, where it is authenticated, a tag of eight bytes. */
  lemma FrameIsItsParts(s: seq<u8>)
    requires Decode(s).Some?
    ensures var d := Decode(s).value;
            && |s| == d.bodyOff + d.bodyLen + (if (s[1] / 32) % 4 == 0 then 0 else 8) <= 255
            && d.bodyOff == 12 + (if s[1] % 2 == 1 then 6 else 0) + (if (s[1] / 16) % 2 == 1 then 4 else 0)
                               + (if (s[1] / 8) % 2 == 1 then 4 else 0)
  {
  }

  lemma Spells32(s: seq<u8>, at: nat, v: u32)
    requires at + 4 <= |s| && s[at..at + 4] == Put32(v)
    ensures BigEndian(s, at, 4) == v
  {
    GetPut32(s, at, v);
    assert BigEndian(s, at, 1) == s[at] && BigEndian(s, at, 2) == BigEndian(s, at, 1) * 256 + s[at + 1];
    assert BigEndian(s, at, 3) == BigEndian(s, at, 2) * 256 + s[at + 2];
    assert BigEndian(s, at, 4) == BigEndian(s, at, 3) * 256 + s[at + 3];
  }

  lemma Spells24(s: seq<u8>, at: nat, v: u32)
    requires at + 3 <= |s| && s[at..at + 3] == Put24(v) && v <= U24_MAX
    ensures BigEndian(s, at, 3) == v
  {
    GetPut24(s, at, v);
    assert BigEndian(s, at, 1) == s[at] && BigEndian(s, at, 2) == BigEndian(s, at, 1) * 256 + s[at + 1];
    assert BigEndian(s, at, 3) == BigEndian(s, at, 2) * 256 + s[at + 2];
  }

  /** Where each part of a header lies in a frame that starts with it. */
  lemma PartsInPlace(h: WireHdr, rest: seq<u8>)
    ensures var s := Header(h) + rest;
            && (Has(h.flags, FLAG_STAMPED) ==> s[12..15] == Put24(h.fireRound) && s[15..18] == Put24(h.fireOffsetUs))
            && (Has(h.flags, FLAG_SESSION_OPENING) ==>
                 s[NonceOff(h.flags)..NonceOff(h.flags) + 4] == Put32(h.nodeNonce))
            && (Has(h.flags, FLAG_ACK) ==> s[AckOff(h.flags)..AckOff(h.flags) + 4] == Put32(h.ackedFcnt))
  {
    SlicesOf(FixedPart(h), StampPart(h), NoncePart(h), AckPart(h), rest);
    if Has(h.flags, FLAG_STAMPED) {
      HalvesOf(Header(h) + rest, 12, Put24(h.fireRound), Put24(h.fireOffsetUs));
    }
  }

  lemma SlicesOf(a: seq<u8>, b: seq<u8>, c: seq<u8>, d: seq<u8>, rest: seq<u8>)
    ensures var s := (a + b + c + d) + rest;
            && s[|a|..|a| + |b|] == b && s[|a| + |b|..|a| + |b| + |c|] == c
            && s[|a| + |b| + |c|..|a| + |b| + |c| + |d|] == d
  {
  }

  lemma HalvesOf(s: seq<u8>, at: nat, x: seq<u8>, y: seq<u8>)
    requires |x| == |y| == 3 && at + 6 <= |s| && s[at..at + 6] == x + y
    ensures s[at..at + 3] == x && s[at + 3..at + 6] == y
  {
    assert s[at..at + 3] == s[at..at + 6][..3] && s[at + 3..at + 6] == s[at..at + 6][3..6];
  }

  lemma FieldsInPlace(h: WireHdr, rest: seq<u8>)
    requires Encodable(h) && Shaped(Header(h) + rest)
    ensures HdrOf(Header(h) + rest) == Canonical(h)
  {
    var s := Header(h) + rest;
    assert s == FixedPart(h) + (StampPart(h) + NoncePart(h) + AckPart(h) + rest);
    FixedBytes(h, StampPart(h) + NoncePart(h) + AckPart(h) + rest);
    PartsInPlace(h, rest);
    GetPut32(s, 5, h.fcnt);
    if Has(h.flags, FLAG_STAMPED) {
      GetPut24(s, 12, h.fireRound);
      GetPut24(s, 15, h.fireOffsetUs);
    }
    if Has(h.flags, FLAG_SESSION_OPENING) {
      GetPut32(s, NonceOff(h.flags), h.nodeNonce);
    }
    if Has(h.flags, FLAG_ACK) {
      GetPut32(s, AckOff(h.flags), h.ackedFcnt);
    }
  }

  /** Decode after encode, with any body and tag: every present field comes back, and
      body and tag are found where they are. */
  lemma DecodeEncode(h: WireHdr, body: seq<u8>, tag: seq<u8>)
    requires Encodable(h) && |tag| == TagLen(h.flags) && HeaderLen(h.flags) + |body| + |tag| <= MAX_FRAME
    ensures Decode(Header(h) + body + tag) == Some(Decoded(Canonical(h), |Header(h)|, |body|))
  {
    var rest := body + tag;
    assert Header(h) + body + tag == Header(h) + rest;
    assert Header(h) + rest == FixedPart(h) + (StampPart(h) + NoncePart(h) + AckPart(h) + rest);
    FixedBytes(h, StampPart(h) + NoncePart(h) + AckPart(h) + rest);
    assert Shaped(Header(h) + rest);
    FieldsInPlace(h, rest);
  }

  /** Encode after decode: a decoded header is encodable and its bytes are exactly
      the frame's, whatever the frame. */
  lemma EncodeDecode(s: seq<u8>)
    requires Decode(s).Some?
    ensures var d := Decode(s).value;
            Encodable(d.hdr) && Header(d.hdr) == s[..d.bodyOff] && d.hdr == Canonical(d.hdr)
  {
    var h := HdrOf(s);
    PutGet32(s, 5);
    assert FixedPart(h) == s[..12];
    if Has(h.flags, FLAG_STAMPED) {
      PutGet24(s, 12);
      PutGet24(s, 15);
    }
    assert StampPart(h) == s[12..NonceOff(h.flags)];
    if Has(h.flags, FLAG_SESSION_OPENING) {
      PutGet32(s, NonceOff(h.flags));
    }
    assert NoncePart(h) == s[NonceOff(h.flags)..AckOff(h.flags)];
    if Has(h.flags, FLAG_ACK) {
      PutGet32(s, AckOff(h.flags));
    }
    assert AckPart(h) == s[AckOff(h.flags)..HeaderLen(h.flags)];
  }

  /** Two headers with the same bytes carry the same fields. */
  lemma HeaderIsInjective(g: WireHdr, h: WireHdr)
    requires Encodable(g) && Encodable(h) && Header(g) == Header(h)
    ensures Canonical(g) == Canonical(h)
  {
    FixedBytes(g, StampPart(g) + NoncePart(g) + AckPart(g));
    FixedBytes(h, StampPart(h) + NoncePart(h) + AckPart(h));
    assert Header(g) == FixedPart(g) + (StampPart(g) + NoncePart(g) + AckPart(g));
    assert Header(h) == FixedPart(h) + (StampPart(h) + NoncePart(h) + AckPart(h));
    var tag := seq(TagLen(g.flags), _ => 0);
    DecodeEncode(g, [], tag);
    DecodeEncode(h, [], tag);
  }

  // ---- the code that reads and writes buffers -------------------------------

  /** Writes the next bytes of a frame whose front is already written. */
  method WriteNext(out: array<u8>, at: nat, bytes: seq<u8>, ghost front: seq<u8>, ghost was: seq<u8>)
    requires at + |bytes| <= out.Length == |was| && |front| == at && out[..] == front + was[at..]
    modifies out
    ensures out[..] == (front + bytes) + was[at + |bytes|..]
  {
    for i := 0 to |bytes|
      invariant out[..] == front + bytes[..i] + was[at + i..]
    {
      out[at + i] := bytes[i];
    }
    assert bytes[..|bytes|] == bytes;
  }

  /** The same for a part its flag may leave out. */
  method WritePart(out: array<u8>, at: nat, present: bool, bytes: seq<u8>, ghost front: seq<u8>,
                   ghost was: seq<u8>)
    returns (n: nat)
    requires at + |bytes| <= out.Length == |was| && |front| == at && out[..] == front + was[at..]
    requires !present ==> bytes == []
    modifies out
    ensures n == at + |bytes| && out[..] == (front + bytes) + was[n..]
  {
    n := at;
    if present {
      WriteNext(out, at, bytes, front, was);
      n := n + |bytes|;
    } else {
      assert front + bytes == front;
    }
  }

  /** Writes the header at the front of `out`; 0 (and nothing written) exactly when it
      does not fit or is not encodable. */
  method EncodeHeader(h: WireHdr, out: array<u8>) returns (n: nat)
    modifies out
    ensures n > 0 <==> Encodable(h) && HeaderLen(h.flags) <= out.Length
    ensures n > 0 ==> n == HeaderLen(h.flags) && out[..] == Header(h) + old(out[..])[n..]
    ensures n == 0 ==> out[..] == old(out[..])
  {
    if out.Length < HeaderLen(h.flags) || Has(h.flags, FLAG_RESERVED) || h.port > MAX_PORT {
      return 0;
    }
    if Has(h.flags, FLAG_STAMPED) && (h.fireRound > U24_MAX || h.fireOffsetUs > U24_MAX) {
      return 0;
    }
    n := WriteHeader(h, out);
  }

  method WriteHeader(h: WireHdr, out: array<u8>) returns (n: nat)
    requires HeaderLen(h.flags) <= out.Length
    modifies out
    ensures n == HeaderLen(h.flags) && out[..] == Header(h) + old(out[..])[n..]
  {
    ghost var was := out[..];
    ghost var f, s, o, a := FixedPart(h), StampPart(h), NoncePart(h), AckPart(h);
    assert |f| + |s| + |o| + |a| == |Header(h)|;
    assert out[..] == [] + was[0..] && [] + f == f;
    n := WritePart(out, 0, true, FixedPart(h), [], was);
    n := WritePart(out, n, Has(h.flags, FLAG_STAMPED), StampPart(h), f, was);
    n := WritePart(out, n, Has(h.flags, FLAG_SESSION_OPENING), NoncePart(h), f + s, was);
    n := WritePart(out, n, Has(h.flags, FLAG_ACK), AckPart(h), f + s + o, was);
  }

  method DecodeFrame(buf: array<u8>, len: nat) returns (d: Option<Decoded>)
    requires len <= buf.Length
    ensures d == Decode(buf[..len])
  {
    var s := buf[..len];
    var shaped := CheckShape(s);
    if !shaped {
      return None;
    }
    var h, off := ReadHeader(s);
    return Some(Decoded(h, off, len - off - TagLen(s[1])));
  }

  method CheckShape(s: seq<u8>) returns (ok: bool)
    ensures ok == Shaped(s)
  {
    if |s| < FIXED || |s| > MAX_FRAME || s[0] != VERSION {
      return false;
    }
    var flags := s[1];
    if Has(flags, FLAG_RESERVED) || s[9] > MAX_PORT {
      return false;
    }
    return HeaderLen(flags) + TagLen(flags) <= |s|;
  }

  method ReadHeader(s: seq<u8>) returns (h: WireHdr, off: nat)
    requires Shaped(s)
    ensures h == HdrOf(s) && off == HeaderLen(s[1])
  {
    var flags := s[1];
    var round, offset, nonce, acked := 0, 0, 0, 0;
    off := FIXED;
    if Has(flags, FLAG_STAMPED) {
      round, offset := Get24(s, off), Get24(s, off + 3);
      off := off + STAMP;
    }
    assert off == NonceOff(flags);
    if Has(flags, FLAG_SESSION_OPENING) {
      nonce := Get32(s, off);
      off := off + 4;
    }
    assert off == AckOff(flags);
    if Has(flags, FLAG_ACK) {
      acked := Get32(s, off);
      off := off + 4;
    }
    h := WireHdr(flags, s[2], s[3], s[4], Get32(s, 5), s[9], s[10], s[11], round, offset, nonce, acked);
  }

  // ---- rounds modulo 2^24 ---------------------------------------------------

  function RoundDelta24(a: u32, b: u32): int {
    var d := Wrap32(a - b) % 16777216;
    if d >= 0x80_0000 then d - 16777216 else d
  }

  /** The signed difference of two rounds known only modulo 2^24 is the true one
      while they are less than 2^23 apart. */
  lemma RoundDeltaIsTrue(a: int, b: int)
    requires 0 <= a && 0 <= b && -0x80_0000 <= a - b < 0x80_0000
    ensures RoundDelta24(a % 16777216, b % 16777216) == a - b
  {
    var x, y := a % 16777216, b % 16777216;
    assert Wrap32(x - y) % 16777216 == (x - y) % 16777216;
    assert (x - y) % 16777216 == (a - b) % 16777216;
  }
}
