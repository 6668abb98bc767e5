/**
 The node's copy of the timed-window grid (GridState.h): marks on the hub's clock,
 stretched onto the node's clock by a learned rate, and the seeded searches for
 the next one.

 `Stretched` and `Instant` are the mathematical values; `StretchUs` is the 64-bit
 computation, callable only where no intermediate result overflows.
 */
module GridState {
  import opened Machine

  const ROUND_US: int := 1500000
  const SLOT_COUNT: int := 32
  const PITCH_US: int := 46875
  const ARM_LEAD_US: int := 18240     // 4160 us of preamble and the guard
  const RATE_DEN: int := 1000000000
  const RATE_MAX_PPB: int := 200000
  const MAX_SPAN_US: int := 2600000000000          // a month of uptime
  const MAX_INSTANT_US: int := 0x1000_0000_0000_0000

  datatype Refusal = Accepted | SlotCountMismatch | PitchMismatch | RoundMismatch | SlotOutOfRange
    | TxSlotOutOfRange | BeaconSlotOutOfRange | SweepOffsetNotAllowed

  datatype Params = Params(slotIndex: u32, slotCount: u32, roundUs: u32, pitchUs: u32,
                           beaconSlot: u32, beaconEvery: u32, ulOffsetUs: u32, armOffsetUs: int)

  datatype State = State(active: bool, params: Params, anchorUs: int, ratePpb: int)

  function Validate(p: Params, txSlot: u32, isBench: bool): Refusal {
    if p.armOffsetUs != 0 && !isBench then SweepOffsetNotAllowed
    else if p.slotCount != SLOT_COUNT then SlotCountMismatch
    else if p.roundUs != ROUND_US then RoundMismatch
    else if p.pitchUs != PITCH_US then PitchMismatch
    else if p.slotIndex >= p.slotCount then SlotOutOfRange
    else if txSlot >= p.slotCount then TxSlotOutOfRange
    else if p.beaconEvery != 0 && p.beaconSlot >= p.slotCount then BeaconSlotOutOfRange
    else Accepted
  }

  /** A grid is adopted exactly as it was agreed: 32 slots of 46875 us in a round of 1.5 s, every
      slot in range, the beacon's only where there is a beacon, and no sweep but on the bench. */
  lemma AdoptedIff(p: Params, txSlot: u32, isBench: bool)
    ensures Validate(p, txSlot, isBench) == Accepted
       <==> p.slotCount == 32 && p.pitchUs == 46875 && p.roundUs == 1500000 && p.slotIndex < 32 && txSlot < 32
            && (p.beaconEvery == 0 || p.beaconSlot < 32) && (p.armOffsetUs == 0 || isBench)
  {
  }

  /** An active grid was validated when adopted, its rate is clamped, and its
      beacon cadence and anchor stay inside a month and 2^60 us. */
  ghost predicate Adopted(st: State) {
    && (exists txSlot, isBench :: Validate(st.params, txSlot, isBench) == Accepted)
    && -RATE_MAX_PPB <= st.ratePpb <= RATE_MAX_PPB
    && -MAX_INSTANT_US <= st.anchorUs <= MAX_INSTANT_US
    && st.params.beaconEvery * ROUND_US <= MAX_SPAN_US
  }

  /** The instant lies at most a month past the anchor. */
  ghost predicate WithinSpan(st: State, instantUs: int) {
    -MAX_INSTANT_US <= instantUs <= st.anchorUs + MAX_SPAN_US
  }

  // ---- arithmetic -----------------------------------------------------------

  /** C division: the quotient is truncated toward zero. */
  function TDiv(a: int, b: int): int
    requires b > 0
  {
    if a >= 0 then a / b else -((-a) / b)
  }

  function Stretched(ratePpb: int, span: int): int {
    span + TDiv(span * ratePpb, RATE_DEN)
  }

  ghost predicate StretchFits(st: State, span: int) {
    FitsI64(span * st.ratePpb) && FitsI64(Stretched(st.ratePpb, span))
        && FitsI64(st.anchorUs + Stretched(st.ratePpb, span))
  }

  function StretchUs(st: State, hubSpanUs: int): int
    requires StretchFits(st, hubSpanUs)
  {
    hubSpanUs + TDiv(hubSpanUs * st.ratePpb, RATE_DEN)
  }

  function UnstretchUs(st: State, nodeSpanUs: int): int
    requires FitsI64(nodeSpanUs * st.ratePpb) && FitsI64(nodeSpanUs - TDiv(nodeSpanUs * st.ratePpb, RATE_DEN))
  {
    nodeSpanUs - TDiv(nodeSpanUs * st.ratePpb, RATE_DEN)
  }

  /** The node-clock instant of a hub-clock span after the anchor. */
  function Instant(st: State, span: int): int {
    st.anchorUs + Stretched(st.ratePpb, span)
  }

  lemma TDivBounds(a: int)
    ensures a >= 0 ==> a - RATE_DEN < RATE_DEN * TDiv(a, RATE_DEN) <= a
    ensures a <= 0 ==> a <= RATE_DEN * TDiv(a, RATE_DEN) < a + RATE_DEN
  {
  }

  lemma MulNonNegative(a: int, b: int)
    requires a >= 0 && b >= 0
    ensures a * b >= 0
  {
  }

  lemma ProductBound(x: int, q: int)
    requires -RATE_MAX_PPB <= q <= RATE_MAX_PPB
    ensures x >= 0 ==> -RATE_MAX_PPB * x <= x * q <= RATE_MAX_PPB * x
    ensures x <= 0 ==> RATE_MAX_PPB * x <= x * q <= -RATE_MAX_PPB * x
    ensures x >= 0 && q >= 0 ==> x * q >= 0
    ensures x >= 0 && q <= 0 ==> x * q <= 0
  {
    var a := if x >= 0 then x else -x;
    MulNonNegative(a, RATE_MAX_PPB - q);
    MulNonNegative(a, RATE_MAX_PPB + q);
    MulNonNegative(a, if q >= 0 then q else -q);
    assert a * (RATE_MAX_PPB - q) == RATE_MAX_PPB * a - a * q;
    assert a * (RATE_MAX_PPB + q) == RATE_MAX_PPB * a + a * q;
  }

  /** No 64-bit overflow for spans up to 4e13 us (over a year). */
  lemma StretchNeverOverflows(st: State, span: int)
    requires -RATE_MAX_PPB <= st.ratePpb <= RATE_MAX_PPB && -MAX_INSTANT_US <= st.anchorUs <= MAX_INSTANT_US
    requires 0 <= span <= 40000000000000
    ensures StretchFits(st, span)
    ensures FitsI64(span - TDiv(span * st.ratePpb, RATE_DEN))
  {
    ProductBound(span, st.ratePpb);
    TDivBounds(span * st.ratePpb);
  }

  /** What stretching means: the span times one plus the rate in parts per billion, short
      of it by less than a microsecond, whichever way the rate goes. */
  lemma StretchIsNominal(q: int, span: int)
    requires -RATE_MAX_PPB <= q <= RATE_MAX_PPB && span >= 0
    ensures var exact := span as real * (1.0 + q as real / 1000000000.0);
            -1.0 < Stretched(q, span) as real - exact < 1.0
  {
    TDivBounds(span * q);
    ProductBound(span, q);
    var e := TDiv(span * q, RATE_DEN);
    assert span as real * (1.0 + q as real / 1000000000.0) == span as real + (span * q) as real / 1000000000.0 by {
      assert (span * q) as real == span as real * q as real;
    }
    assert -1000000000.0 < (e * RATE_DEN - span * q) as real < 1000000000.0;
  }

  /** A longer span stretches to a longer one, by 1 +- 200 ppm, rounding 1 us. */
  lemma StretchGrows(q: int, x: int, y: int)
    requires -RATE_MAX_PPB <= q <= RATE_MAX_PPB && 0 <= x <= y
    ensures 5000 * (Stretched(q, y) - Stretched(q, x)) > 4999 * (y - x) - 5000
    ensures 5000 * (Stretched(q, y) - Stretched(q, x)) < 5001 * (y - x) + 5000
  {
    ProductBound(x, q);
    ProductBound(y, q);
    ProductBound(y - x, q);
    TDivBounds(x * q);
    TDivBounds(y * q);
    assert y * q == x * q + (y - x) * q;
  }

  /** Stretching a sum is stretching its parts, give or take 1 us. */
  lemma StretchAdds(q: int, x: int, y: int)
    requires -RATE_MAX_PPB <= q <= RATE_MAX_PPB && 0 <= x && 0 <= y
    ensures -1 <= Stretched(q, x + y) - Stretched(q, x) - Stretched(q, y) <= 1
  {
    ProductBound(x, q);
    ProductBound(y, q);
    TDivBounds(x * q);
    TDivBounds(y * q);
    TDivBounds((x + y) * q);
    assert (x + y) * q == x * q + y * q;
  }

  /** First-order unstretching is off by at most 104 ms over a month. */
  lemma SeedError(q: int, d: int)
    requires -RATE_MAX_PPB <= q <= RATE_MAX_PPB && 0 <= d <= MAX_SPAN_US + 1
    ensures var u := d - TDiv(d * q, RATE_DEN);
            0 <= u <= d + d / 5000 && -104002 <= Stretched(q, u) - d <= 104002
  {
    ProductBound(d, q);
    TDivBounds(d * q);
    var e := TDiv(d * q, RATE_DEN);
    var u := d - e;
    assert -520000001 <= e <= 520000001;
    ProductBound(u, q);
    ProductBound(e, q);
    TDivBounds(u * q);
    assert d * q == u * q + e * q;
  }

  // ---- the seeded search ----------------------------------------------------

  /** Instant of mark n of the family at spans n * step + off. */
  function Mark(st: State, step: int, off: int, n: int): int {
    Instant(st, n * step + off)
  }

  /** Mark n is the first of its family at or after the target. */
  ghost predicate IsFirstMark(st: State, step: int, off: int, target: int, n: int) {
    && n >= 0
    && Mark(st, step, off, n) >= target
    && (forall m :: 0 <= m < n ==> Mark(st, step, off, m) < target)
  }

  ghost predicate SearchDomain(st: State, step: int, off: int, target: int) {
    && -RATE_MAX_PPB <= st.ratePpb <= RATE_MAX_PPB
    && -MAX_INSTANT_US <= st.anchorUs <= MAX_INSTANT_US
    && ROUND_US <= step <= MAX_SPAN_US
    && 0 <= off < U32_MOD + ROUND_US
    && WithinSpan(st, target)
  }

  lemma MarksGrow(st: State, step: int, off: int, m: int, n: int)
    requires -RATE_MAX_PPB <= st.ratePpb <= RATE_MAX_PPB && step >= ROUND_US && 0 <= off
    requires 0 <= m < n
    ensures Mark(st, step, off, m) + 1499600 <= Mark(st, step, off, n)
  {
    MulNonNegative(n - m - 1, step);
    MulNonNegative(m, step);
    assert n * step == m * step + step + (n - m - 1) * step;
    StretchGrows(st.ratePpb, m * step + off, n * step + off);
  }

  /** Where the seed lands: the mark after it is late enough, and the mark two
      before it is too early. */
  lemma SeedIsClose(st: State, step: int, off: int, target: int, r: int)
    requires SearchDomain(st, step, off, target) && Mark(st, step, off, 0) < target
    requires var d := target - Mark(st, step, off, 0);
             var u := d - TDiv(d * st.ratePpb, RATE_DEN);
             r >= 0 && u <= r * step < u + step
    ensures Mark(st, step, off, r + 1) >= target
    ensures r >= 2 ==> Mark(st, step, off, r - 2) < target
  {
    var d := target - Mark(st, step, off, 0);
    var u := d - TDiv(d * st.ratePpb, RATE_DEN);
    FirstMarkNearAnchor(st, step, off);
    SeedError(st.ratePpb, d);
    assert (r + 1) * step == r * step + step;
    LateEnough(st, step, off, d, u, (r + 1) * step);
    if r >= 2 {
      MulNonNegative(r - 2, step);
      assert (r - 2) * step == r * step - 2 * step;
      TooEarly(st, step, off, d, u, (r - 2) * step);
    }
  }

  lemma LateEnough(st: State, step: int, off: int, d: int, u: int, span: int)
    requires -RATE_MAX_PPB <= st.ratePpb <= RATE_MAX_PPB && ROUND_US <= step && off >= 0
    requires 0 <= u && -104002 <= Stretched(st.ratePpb, u) - d && u + step <= span
    ensures Instant(st, span + off) - Instant(st, off) >= d
  {
    StretchGrows(st.ratePpb, u, span);
    StretchAdds(st.ratePpb, span, off);
  }

  lemma TooEarly(st: State, step: int, off: int, d: int, u: int, span: int)
    requires -RATE_MAX_PPB <= st.ratePpb <= RATE_MAX_PPB && ROUND_US <= step && off >= 0
    requires Stretched(st.ratePpb, u) - d <= 104002 && 0 <= span && span + step <= u
    ensures Instant(st, span + off) - Instant(st, off) < d
  {
    StretchGrows(st.ratePpb, span, u);
    StretchAdds(st.ratePpb, span, off);
  }

  lemma FirstMarkNearAnchor(st: State, step: int, off: int)
    requires -RATE_MAX_PPB <= st.ratePpb <= RATE_MAX_PPB && 0 <= off < U32_MOD + ROUND_US
    ensures st.anchorUs - 1 <= Mark(st, step, off, 0) == st.anchorUs + Stretched(st.ratePpb, off)
         <= st.anchorUs + 4300000000
  {
    assert 0 * step + off == off;
    StretchGrows(st.ratePpb, 0, off);
  }

  /** The ceiling the seed takes, with C's truncating division. */
  lemma SeedCeiling(u: int, step: int)
    requires u >= 0 && step > 0
    ensures var r := TDiv(u + step - 1, step);
            r >= 0 && u <= r * step < u + step
  {
    var r := (u + step - 1) / step;
    assert (u + step - 1) == r * step + (u + step - 1) % step;
  }

  ghost predicate MarkFits(st: State, step: int, off: int, n: int) {
    FitsI64(n * step + off) && StretchFits(st, n * step + off)
  }

  /** t0ForRound and its siblings: mark n as the 64-bit code computes it. */
  function MarkUs(st: State, step: int, off: int, n: int): (t: int)
    requires MarkFits(st, step, off, n)
    ensures t == Mark(st, step, off, n)
  {
    st.anchorUs + StretchUs(st, n * step + off)
  }

  lemma SpansFit(st: State, step: int, off: int, r: int, u: int)
    requires 0 <= u <= MAX_SPAN_US + 1 + (MAX_SPAN_US + 1) / 5000
    requires ROUND_US <= step <= MAX_SPAN_US && 0 <= off < U32_MOD + ROUND_US
    requires -RATE_MAX_PPB <= st.ratePpb <= RATE_MAX_PPB && -MAX_INSTANT_US <= st.anchorUs <= MAX_INSTANT_US
    requires 0 <= r && r * step <= u + step
    ensures forall n :: 0 <= n <= r + 1 ==> MarkFits(st, step, off, n)
  {
    forall n | 0 <= n <= r + 1
      ensures MarkFits(st, step, off, n)
    {
      MulNonNegative(n, step);
      MulNonNegative(r + 1 - n, step);
      assert (r + 1) * step == n * step + (r + 1 - n) * step;
      assert (r + 1) * step == r * step + step;
      StretchNeverOverflows(st, n * step + off);
    }
  }

  lemma FirstByPredecessor(st: State, step: int, off: int, target: int, r: int)
    requires SearchDomain(st, step, off, target) && r >= 0 && Mark(st, step, off, r) >= target
    requires r > 0 ==> Mark(st, step, off, r - 1) < target
    ensures IsFirstMark(st, step, off, target, r)
  {
    forall m | 0 <= m < r
      ensures Mark(st, step, off, m) < target
    {
      if m < r - 1 {
        MarksGrow(st, step, off, m, r - 1);
      }
    }
  }

  /** The first correction loop: back to where the mark before is too early. */
  method BackUp(st: State, step: int, off: int, target: int, seed: int) returns (r: int)
    requires seed >= 0 && forall n :: 0 <= n <= seed ==> MarkFits(st, step, off, n)
    requires seed >= 2 ==> Mark(st, step, off, seed - 2) < target
    ensures 0 <= r <= seed <= r + 1
    ensures r < seed ==> Mark(st, step, off, r) >= target
    ensures r > 0 ==> Mark(st, step, off, r - 1) < target
  {
    r := seed;
    while r > 0 && MarkUs(st, step, off, r - 1) >= target
      invariant 0 <= r <= seed <= r + 1
      invariant r < seed ==> Mark(st, step, off, r) >= target
    {
      r := r - 1;
    }
  }

  /** The two correction loops: from a close seed, at most one step. */
  method CorrectUp(st: State, step: int, off: int, target: int, seed: int) returns (r: int, ghost moves: nat)
    requires seed >= 0 && forall n :: 0 <= n <= seed + 1 ==> MarkFits(st, step, off, n)
    requires Mark(st, step, off, seed + 1) >= target
    requires seed >= 2 ==> Mark(st, step, off, seed - 2) < target
    ensures 0 <= r <= seed + 1 && moves <= 1
    ensures Mark(st, step, off, r) >= target
    ensures r > 0 ==> Mark(st, step, off, r - 1) < target
  {
    r := BackUp(st, step, off, target, seed);
    moves := seed - r;
    while MarkUs(st, step, off, r) < target
      invariant 0 <= r <= seed + 1 && moves <= 1
      invariant moves == (if r <= seed then seed - r else r - seed)
      invariant r < seed ==> Mark(st, step, off, r) >= target
      invariant r > 0 ==> Mark(st, step, off, r - 1) < target
      decreases seed + 1 - r
    {
      r := r + 1;
      moves := moves + 1;
    }
  }

  method CorrectDown(st: State, step: int, off: int, t0Us: int, seed: int) returns (r: int, ghost moves: nat)
    requires seed >= 0 && forall n :: 0 <= n <= seed + 2 ==> MarkFits(st, step, off, n)
    requires Mark(st, step, off, seed + 2) > t0Us
    requires seed >= 1 ==> Mark(st, step, off, seed - 1) <= t0Us
    ensures 0 <= r <= seed + 1 && moves <= 1
    ensures r > 0 ==> Mark(st, step, off, r) <= t0Us
    ensures Mark(st, step, off, r + 1) > t0Us
  {
    r, moves := seed, 0;
    while r > 0 && MarkUs(st, step, off, r) > t0Us
      invariant 0 <= r <= seed && moves == seed - r <= 1
      invariant r < seed ==> Mark(st, step, off, r + 1) > t0Us
    {
      r := r - 1;
      moves := moves + 1;
    }
    while MarkUs(st, step, off, r + 1) <= t0Us
      invariant 0 <= r <= seed + 1 && moves <= 1
      invariant moves == (if r <= seed then seed - r else r - seed)
      invariant r < seed ==> Mark(st, step, off, r + 1) > t0Us
      invariant r > 0 ==> Mark(st, step, off, r) <= t0Us
      decreases seed + 1 - r
    {
      r := r + 1;
      moves := moves + 1;
    }
  }

  /** The searches of nextT0Us, nextBeaconT0Us and aimUplink: seeded from the
      nominal answer, then corrected. The result is exactly the first mark at or
      after the target, and the correction loops take at most one step. */
  method FirstMark(st: State, step: int, off: int, target: int) returns (t: int, ghost n: int, ghost moves: nat)
    requires SearchDomain(st, step, off, target)
    ensures IsFirstMark(st, step, off, target, n) && t == Mark(st, step, off, n)
    ensures t >= target && moves <= 1
  {
    StretchNeverOverflows(st, off);
    FirstMarkNearAnchor(st, step, off);
    var base := MarkUs(st, step, off, 0);
    if target <= base {
      n, moves := 0, 0;
      t := base;
      return;
    }
    var d := target - base;
    SeedError(st.ratePpb, d);
    StretchNeverOverflows(st, d);
    var u := UnstretchUs(st, d);
    SeedCeiling(u, step);
    var r := TDiv(u + step - 1, step);
    if r < 0 {
      r := 0;
    }
    SeedIsClose(st, step, off, target, r);
    SpansFit(st, step, off, r, u);
    r, moves := CorrectUp(st, step, off, target, r);
    FirstByPredecessor(st, step, off, target, r);
    n := r;
    t := MarkUs(st, step, off, r);
  }

  // ---- own marks, rounds, beacons and uplink aims ---------------------------

  /** This node's T0 in a round. */
  function T0ForRound(st: State, round: int): int {
    Mark(st, st.params.roundUs, st.params.slotIndex * st.params.pitchUs, round)
  }

  /** The beacon slot's T0 in the k-th beacon round. */
  function BeaconT0(st: State, k: int): int {
    Mark(st, st.params.roundUs * st.params.beaconEvery, st.params.beaconSlot * st.params.pitchUs, k)
  }

  /** Where an uplink of round n is aimed: the mark plus the published offset. */
  function UplinkT0(st: State, n: int): int {
    Mark(st, st.params.roundUs, st.params.slotIndex * st.params.pitchUs + st.params.ulOffsetUs, n)
  }

  /** An uplink is aimed at its own round's mark plus the offset, stretched, give or take a
      microsecond of rounding. */
  lemma UplinkFollowsItsMark(st: State, n: nat)
    requires Adopted(st)
    ensures -1 <= UplinkT0(st, n) - T0ForRound(st, n) - Stretched(st.ratePpb, st.params.ulOffsetUs) <= 1
  {
    Geometry(st);
    MulNonNegative(n, st.params.roundUs);
    StretchAdds(st.ratePpb, n * st.params.roundUs + st.params.slotIndex * st.params.pitchUs, st.params.ulOffsetUs);
  }

  lemma Geometry(st: State)
    requires Adopted(st)
    ensures st.params.roundUs == ROUND_US && st.params.pitchUs == PITCH_US
    ensures 0 <= st.params.slotIndex * st.params.pitchUs <= ROUND_US
    ensures st.params.beaconEvery != 0 ==>
              st.params.beaconSlot < SLOT_COUNT && 0 <= st.params.beaconSlot * st.params.pitchUs <= ROUND_US
              && ROUND_US <= st.params.roundUs * st.params.beaconEvery <= MAX_SPAN_US
  {
  }

  method NextT0Us(st: State, nowUs: int) returns (t: int, ghost round: int, ghost moves: nat)
    requires st.active ==> Adopted(st) && WithinSpan(st, nowUs)
    ensures !st.active ==> t == nowUs
    ensures st.active ==> round >= 0 && t == T0ForRound(st, round) && t >= nowUs
    ensures st.active ==> forall m :: 0 <= m < round ==> T0ForRound(st, m) < nowUs
    ensures moves <= 1
  {
    round, moves := 0, 0;
    if !st.active {
      return nowUs, round, moves;
    }
    Geometry(st);
    t, round, moves := FirstMark(st, st.params.roundUs, st.params.slotIndex * st.params.pitchUs, nowUs);
  }

  /** 0 stands for "no beacon"; otherwise the first beacon at or after now. */
  method NextBeaconT0Us(st: State, nowUs: int) returns (t: int, ghost k: int, ghost moves: nat)
    requires st.active ==> Adopted(st) && WithinSpan(st, nowUs)
    ensures !st.active || st.params.beaconEvery == 0 ==> t == 0
    ensures st.active && st.params.beaconEvery != 0 ==> k >= 0 && t == BeaconT0(st, k) && t >= nowUs
    ensures st.active && st.params.beaconEvery != 0 ==> forall m :: 0 <= m < k ==> BeaconT0(st, m) < nowUs
    ensures moves <= 1
  {
    k, moves := 0, 0;
    if !st.active || st.params.beaconEvery == 0 {
      return 0, k, moves;
    }
    Geometry(st);
    t, k, moves := FirstMark(st, st.params.roundUs * st.params.beaconEvery,
                             st.params.beaconSlot * st.params.pitchUs, nowUs);
  }

  datatype UplinkAim = NotAimed | Aimed(cadStartUs: int, t0Us: int)

  /** Aims at the first uplink mark whose CAD start has not passed, and gives it up
      exactly when that start is more than maxWait away. */
  method AimUplink(st: State, nowUs: int, leadUs: int, maxWaitUs: int) returns (a: UplinkAim, ghost n: int)
    requires st.active ==> Adopted(st) && WithinSpan(st, nowUs + leadUs)
    ensures !st.active || st.params.ulOffsetUs == 0 ==> a == NotAimed
    ensures st.active && st.params.ulOffsetUs != 0 ==>
              && n >= 0 && UplinkT0(st, n) >= nowUs + leadUs
              && (forall m :: 0 <= m < n ==> UplinkT0(st, m) < nowUs + leadUs)
              && a == (if UplinkT0(st, n) - leadUs - nowUs > maxWaitUs then NotAimed
                       else Aimed(UplinkT0(st, n) - leadUs, UplinkT0(st, n)))
  {
    n := 0;
    if !st.active || st.params.ulOffsetUs == 0 || st.params.roundUs == 0 {
      if st.active {
        Geometry(st);
      }
      return NotAimed, n;
    }
    Geometry(st);
    ghost var moves;
    var t0;
    t0, n, moves := FirstMark(st, st.params.roundUs,
                              st.params.slotIndex * st.params.pitchUs + st.params.ulOffsetUs, nowUs + leadUs);
    var start := t0 - leadUs;
    if start - nowUs > maxWaitUs {
      return NotAimed, n;
    }
    return Aimed(start, t0), n;
  }

  /** The largest round whose T0 is at or before t0, 0 before the first. */
  method RoundForT0(st: State, t0Us: int) returns (round: nat, ghost moves: nat)
    requires Adopted(st) && WithinSpan(st, t0Us)
    ensures round > 0 ==> T0ForRound(st, round) <= t0Us
    ensures t0Us < T0ForRound(st, round + 1)
    ensures t0Us >= T0ForRound(st, 0) ==> T0ForRound(st, round) <= t0Us
    ensures moves <= 1
  {
    moves := 0;
    Geometry(st);
    var step, off := st.params.roundUs, st.params.slotIndex * st.params.pitchUs;
    StretchNeverOverflows(st, off);
    FirstMarkNearAnchor(st, step, off);
    var base := MarkUs(st, step, off, 0);
    MarksGrow(st, step, off, 0, 1);
    if t0Us < base {
      return 0, moves;
    }
    var d := t0Us - base;
    SeedError(st.ratePpb, d);
    StretchNeverOverflows(st, d);
    var u := UnstretchUs(st, d);
    var r := TDiv(u, step);
    if r < 0 {
      r := 0;
    }
    RoundSeedIsClose(st, t0Us, r);
    r, moves := CorrectDown(st, step, off, t0Us, r);
    round := r;
  }

  lemma RoundSeedIsClose(st: State, t0Us: int, r: int)
    requires Adopted(st) && WithinSpan(st, t0Us) && T0ForRound(st, 0) <= t0Us
    requires var d := t0Us - T0ForRound(st, 0);
             r == TDiv(d - TDiv(d * st.ratePpb, RATE_DEN), ROUND_US)
    ensures r >= 0
    ensures forall n :: 0 <= n <= r + 2 ==> MarkFits(st, ROUND_US, st.params.slotIndex * st.params.pitchUs, n)
    ensures T0ForRound(st, r + 2) > t0Us
    ensures r >= 1 ==> T0ForRound(st, r - 1) <= t0Us
  {
    Geometry(st);
    var q, step, off := st.ratePpb, ROUND_US, st.params.slotIndex * st.params.pitchUs;
    var d := t0Us - T0ForRound(st, 0);
    var u := d - TDiv(d * q, RATE_DEN);
    FirstMarkNearAnchor(st, step, off);
    SeedError(q, d);
    SpansFit(st, step, off, r + 1, u);
    StretchGrows(q, u, (r + 2) * step);
    StretchAdds(q, (r + 2) * step, off);
    if r >= 1 {
      StretchGrows(q, (r - 1) * step, u);
      StretchAdds(q, (r - 1) * step, off);
    }
  }

  /** roundForT0 undoes t0ForRound: only one round fits its contract. */
  lemma RoundIsInverse(st: State, round: nat, r: nat)
    requires Adopted(st)
    requires r > 0 ==> T0ForRound(st, r) <= T0ForRound(st, round)
    requires T0ForRound(st, round) < T0ForRound(st, r + 1)
    ensures r == round
  {
    Geometry(st);
    var off := st.params.slotIndex * st.params.pitchUs;
    if round < r {
      MarksGrow(st, ROUND_US, off, round, r);
    } else if r < round {
      if r + 1 < round {
        MarksGrow(st, ROUND_US, off, r + 1, round);
      }
    }
  }

  /** The round a T0 came from is the round it is assigned to. */
  method RoundOfItsT0(st: State, round: nat) returns (r: nat)
    requires Adopted(st) && WithinSpan(st, T0ForRound(st, round))
    ensures r == round
  {
    ghost var moves;
    r, moves := RoundForT0(st, T0ForRound(st, round));
    RoundIsInverse(st, round, r);
  }

  // ---- the windows a node opens ---------------------------------------------
  //
  // On an adopted grid every own mark and every beacon lies on a whole number of
  // slot pitches: unit u is the span u * PITCH_US after the anchor.

  predicate IsOwn(p: Params, u: int) {
    u >= 0 && u % SLOT_COUNT == p.slotIndex
  }

  predicate IsBeacon(p: Params, u: int) {
    p.beaconEvery != 0 && u >= 0 && u % (SLOT_COUNT * p.beaconEvery) == p.beaconSlot
  }

  predicate IsWindow(p: Params, u: int) {
    IsOwn(p, u) || IsBeacon(p, u)
  }

  function UnitT0(st: State, u: int): int {
    Instant(st, u * PITCH_US)
  }

  datatype WindowKind = Own | Beacon

  /** The windows a node opens: its own and the beacons, or the beacons alone when it skips
      its own and there are any. */
  predicate Opens(p: Params, skipOwn: bool, u: int) {
    if skipOwn && p.beaconEvery != 0 then IsBeacon(p, u) else IsWindow(p, u)
  }

  /** The window at t0 is the first to open at or after `from`; a tie is the beacon's. */
  ghost predicate IsNextWindow(st: State, skipOwn: bool, from: int, t0: int, kind: WindowKind, u: int) {
    && Opens(st.params, skipOwn, u)
    && t0 == UnitT0(st, u) >= from
    && (kind.Beacon? <==> IsBeacon(st.params, u))
    && (forall w :: 0 <= w < u && Opens(st.params, skipOwn, w) ==> UnitT0(st, w) < from)
  }

  lemma UnitsGrow(st: State, u: int, w: int)
    requires -RATE_MAX_PPB <= st.ratePpb <= RATE_MAX_PPB && 0 <= u < w
    ensures UnitT0(st, u) + 46864 <= UnitT0(st, w)
  {
    StretchGrows(st.ratePpb, u * PITCH_US, w * PITCH_US);
  }

  lemma OwnUnit(st: State, r: int)
    requires Adopted(st) && r >= 0
    ensures IsOwn(st.params, r * SLOT_COUNT + st.params.slotIndex)
    ensures T0ForRound(st, r) == UnitT0(st, r * SLOT_COUNT + st.params.slotIndex)
  {
    assert r * st.params.roundUs + st.params.slotIndex * st.params.pitchUs
        == (r * SLOT_COUNT + st.params.slotIndex) * PITCH_US;
  }

  lemma OwnUnitOf(st: State, u: int) returns (r: int)
    requires Adopted(st) && IsOwn(st.params, u)
    ensures r >= 0 && u == r * SLOT_COUNT + st.params.slotIndex && UnitT0(st, u) == T0ForRound(st, r)
  {
    r := u / SLOT_COUNT;
    OwnUnit(st, r);
  }

  lemma MulMonotone(j: int, k: int, c: int)
    requires c >= 0
    ensures j <= k ==> j * c <= k * c
  {
    if j <= k {
      MulNonNegative(k - j, c);
      assert (k - j) * c == k * c - j * c;
    }
  }

  lemma ModOf(a: int, k: int, m: int)
    requires 0 <= a < m && k >= 0
    ensures (k * m + a) % m == a && (k * m + a) / m == k
  {
    var x := k * m + a;
    assert x == m * (x / m) + x % m;
    var q := x / m - k;
    assert m * (x / m) == m * k + m * q;
    assert a - x % m == m * q;
    MulMonotone(1, q, m);
    MulMonotone(q, -1, m);
  }

  lemma BeaconUnit(st: State, k: int)
    requires Adopted(st) && st.params.beaconEvery != 0 && k >= 0
    ensures var u := k * (SLOT_COUNT * st.params.beaconEvery) + st.params.beaconSlot;
            IsBeacon(st.params, u) && BeaconT0(st, k) == UnitT0(st, u)
  {
    Geometry(st);
    var every, slot := st.params.beaconEvery, st.params.beaconSlot;
    ModOf(slot, k, SLOT_COUNT * every);
    MulNonNegative(k, SLOT_COUNT * every);
    assert k * (ROUND_US * every) + slot * PITCH_US == (k * (SLOT_COUNT * every) + slot) * PITCH_US by {
      assert (k * (SLOT_COUNT * every)) * PITCH_US == k * (SLOT_COUNT * every * PITCH_US);
      assert SLOT_COUNT * every * PITCH_US == ROUND_US * every;
    }
  }

  lemma BeaconUnitOf(st: State, u: int) returns (k: int)
    requires Adopted(st) && IsBeacon(st.params, u)
    ensures k >= 0 && u == k * (SLOT_COUNT * st.params.beaconEvery) + st.params.beaconSlot
    ensures UnitT0(st, u) == BeaconT0(st, k)
  {
    var m := SLOT_COUNT * st.params.beaconEvery;
    k := u / m;
    assert u == m * (u / m) + u % m;
    BeaconUnit(st, k);
  }

  /** The first window to open at or after now. */
  method NextWindow(st: State, nowUs: int, skipOwn: bool) returns (t0: int, kind: WindowKind, ghost u: int)
    requires st.active && Adopted(st) && WithinSpan(st, nowUs) && 0 < nowUs
    ensures IsNextWindow(st, skipOwn, nowUs, t0, kind, u)
    ensures t0 >= nowUs && (skipOwn && st.params.beaconEvery != 0 ==> kind == Beacon)
  {
    ghost var round, k, m;
    var own, beacon;
    own, round, m := NextT0Us(st, nowUs);
    beacon, k, m := NextBeaconT0Us(st, nowUs);
    OwnUnit(st, round);
    ghost var ownUnit := round * SLOT_COUNT + st.params.slotIndex;
    EarlierOwn(st, nowUs, round);
    if beacon == 0 {
      u := ownUnit;
      return own, Own, u;
    }
    BeaconUnit(st, k);
    EarlierBeacons(st, nowUs, k);
    ghost var beaconUnit := k * (SLOT_COUNT * st.params.beaconEvery) + st.params.beaconSlot;
    if skipOwn || beacon <= own {
      u := beaconUnit;
      if ownUnit < beaconUnit {
        UnitsGrow(st, ownUnit, beaconUnit);
      }
      return beacon, Beacon, u;
    }
    u := ownUnit;
    if beaconUnit <= ownUnit {
      if beaconUnit < ownUnit {
        UnitsGrow(st, beaconUnit, ownUnit);
      }
    }
    return own, Own, u;
  }

  lemma EarlierOwn(st: State, nowUs: int, round: int)
    requires Adopted(st) && round >= 0
    requires forall m :: 0 <= m < round ==> T0ForRound(st, m) < nowUs
    ensures forall w :: 0 <= w < round * SLOT_COUNT + st.params.slotIndex && IsOwn(st.params, w) ==>
              UnitT0(st, w) < nowUs
  {
    forall w | 0 <= w < round * SLOT_COUNT + st.params.slotIndex && IsOwn(st.params, w)
      ensures UnitT0(st, w) < nowUs
    {
      var r := OwnUnitOf(st, w);
    }
  }

  lemma EarlierBeacons(st: State, nowUs: int, k: int)
    requires Adopted(st) && k >= 0 && st.params.beaconEvery != 0
    requires forall m :: 0 <= m < k ==> BeaconT0(st, m) < nowUs
    ensures forall w ::
              0 <= w < k * (SLOT_COUNT * st.params.beaconEvery) + st.params.beaconSlot && IsBeacon(st.params, w) ==>
                UnitT0(st, w) < nowUs
  {
    forall w | 0 <= w < k * (SLOT_COUNT * st.params.beaconEvery) + st.params.beaconSlot && IsBeacon(st.params, w)
      ensures UnitT0(st, w) < nowUs
    {
      var j := BeaconUnitOf(st, w);
      MulMonotone(k, j, SLOT_COUNT * st.params.beaconEvery);
    }
  }

  /** Where to look once the window at `opened` has opened (0: none yet). */
  function NextWindowSearchFromUs(nowUs: int, openedT0Us: int): int {
    if openedT0Us == 0 then nowUs
    else if openedT0Us + PITCH_US / 2 > nowUs then openedT0Us + PITCH_US / 2 else nowUs
  }

  /** The arm delay never rounds down to zero: a mark already upon us is armed at once. */
  method NextWindowArmDelayUs(st: State, nowUs: int, leadUs: int, skipOwn: bool, openedT0Us: int)
    returns (delay: int, kind: WindowKind, t0: int, ghost u: int)
    requires st.active ==> Adopted(st) && 0 < nowUs && WithinSpan(st, NextWindowSearchFromUs(nowUs, openedT0Us))
    ensures !st.active ==> delay == 1 && kind == Own && t0 == 0
    ensures st.active ==> IsNextWindow(st, skipOwn, NextWindowSearchFromUs(nowUs, openedT0Us), t0, kind, u)
    ensures st.active ==> var open := t0 - ARM_LEAD_US + st.params.armOffsetUs - leadUs;
                          delay == (if open <= nowUs then 1 else open - nowUs)
  {
    u := 0;
    if !st.active {
      return 1, Own, 0, u;
    }
    t0, kind, u := NextWindow(st, NextWindowSearchFromUs(nowUs, openedT0Us), skipOwn);
    var d := t0 - ARM_LEAD_US + st.params.armOffsetUs - leadUs - nowUs;
    delay := if d < 1 then 1 else d;
  }

  // ---- repeated asking visits every window, in order, once ------------------

  lemma Congruent(a: int, s: int, m: int)
    requires 0 <= s < m && a >= 0
    ensures 0 <= (s - a) % m < m && (a + (s - a) % m) % m == s
  {
    var q := (s - a) / m;
    assert s - a == m * q + (s - a) % m;
    MulMonotone(1, q, m);
    assert a + (s - a) % m == (-q) * m + s by {
      assert (-q) * m == -(m * q);
    }
    ModOf(s, -q, m);
  }

  predicate Placed(p: Params) {
    p.slotIndex < SLOT_COUNT && (p.beaconEvery != 0 ==> p.beaconSlot < SLOT_COUNT)
  }

  function NextOwn(p: Params, u: int): (w: int)
    requires u >= 0 && Placed(p)
    ensures u < w && IsOwn(p, w)
  {
    Congruent(u + 1, p.slotIndex, SLOT_COUNT);
    u + 1 + (p.slotIndex - (u + 1)) % SLOT_COUNT
  }

  function NextBeacon(p: Params, u: int): (w: int)
    requires u >= 0 && Placed(p) && p.beaconEvery != 0
    ensures u < w && IsBeacon(p, w)
  {
    Congruent(u + 1, p.beaconSlot, SLOT_COUNT * p.beaconEvery);
    u + 1 + (p.beaconSlot - (u + 1)) % (SLOT_COUNT * p.beaconEvery)
  }

  function FirstFrom(p: Params, skipOwn: bool, v: int, last: int): (w: int)
    requires 0 <= v <= last && Opens(p, skipOwn, last)
    ensures v <= w <= last && Opens(p, skipOwn, w)
    ensures forall x :: v <= x < w ==> !Opens(p, skipOwn, x)
    decreases last - v
  {
    if v == last || Opens(p, skipOwn, v) then v else FirstFrom(p, skipOwn, v + 1, last)
  }

  /** The first window to open after unit u. */
  function NextUnit(p: Params, skipOwn: bool, u: int): (w: int)
    requires u >= 0 && Placed(p)
    ensures u < w && Opens(p, skipOwn, w)
    ensures forall v :: u < v < w ==> !Opens(p, skipOwn, v)
  {
    FirstFrom(p, skipOwn, u + 1, if skipOwn && p.beaconEvery != 0 then NextBeacon(p, u) else NextOwn(p, u))
  }

  lemma SameRemainder(u: int, w: int, m: int)
    requires m > 0 && 0 <= u < w && u % m == w % m
    ensures u + m <= w
  {
    var d := w / m - u / m;
    assert u == m * (u / m) + u % m && w == m * (w / m) + w % m;
    assert w - u == d * m;
    MulMonotone(d, 0, m);
    MulMonotone(1, d, m);
  }

  lemma OneMoreTurn(u: int, m: int)
    requires m > 0 && u >= 0
    ensures (u + m) % m == u % m
  {
    assert u + m == (u / m + 1) * m + u % m;
    ModOf(u % m, u / m + 1, m);
  }

  /** A node that skips its own windows has its beacons a whole cadence apart. */
  lemma BeaconsAreEvenlySpaced(p: Params, u: int)
    requires Placed(p) && p.beaconEvery != 0 && IsBeacon(p, u)
    ensures NextUnit(p, true, u) == u + SLOT_COUNT * p.beaconEvery
  {
    SameRemainder(u, NextUnit(p, true, u), SLOT_COUNT * p.beaconEvery);
    OneMoreTurn(u, SLOT_COUNT * p.beaconEvery);
    assert Opens(p, true, u + SLOT_COUNT * p.beaconEvery);
  }

  /** One beacon a cadence: its round is a beacon round, its slot the beacon's. */
  lemma BeaconRounds(p: Params, u: int)
    requires Placed(p) && p.beaconEvery != 0 && u >= 0
    ensures IsBeacon(p, u) <==> (u / SLOT_COUNT) % p.beaconEvery == 0 && u % SLOT_COUNT == p.beaconSlot
  {
    var e, r, q := p.beaconEvery, u % SLOT_COUNT, u / SLOT_COUNT;
    var k, rest := q / e, q % e;
    assert q == e * k + rest && u == SLOT_COUNT * q + r;
    assert u == k * (SLOT_COUNT * e) + (SLOT_COUNT * rest + r) by {
      assert SLOT_COUNT * (e * k) == k * (SLOT_COUNT * e);
    }
    MulMonotone(rest + 1, e, SLOT_COUNT);
    MulNonNegative(rest, SLOT_COUNT);
    ModOf(SLOT_COUNT * rest + r, k, SLOT_COUNT * e);
  }

  /** The capture within which a beacon re-anchors the grid and teaches it a rate. */
  predicate BeaconErrLearnable(errUs: int, pitchUs: int)
    requires pitchUs >= 0
  {
    -(pitchUs / 2) <= errUs <= pitchUs / 2
  }

  const HALF_PITCH_US: int := PITCH_US / 2

  /** Every window that opens up to unit u lies before `from`. */
  ghost predicate Passed(st: State, skipOwn: bool, u: int, from: int) {
    forall v :: 0 <= v <= u && Opens(st.params, skipOwn, v) ==> UnitT0(st, v) < from
  }

  lemma PassedIff(st: State, skipOwn: bool, u: int, from: int)
    requires -RATE_MAX_PPB <= st.ratePpb <= RATE_MAX_PPB && u >= 0
    ensures UnitT0(st, u) < from ==> Passed(st, skipOwn, u, from)
    ensures Opens(st.params, skipOwn, u) ==> (Passed(st, skipOwn, u, from) <==> UnitT0(st, u) < from)
  {
    forall v | 0 <= v < u
      ensures UnitT0(st, v) < UnitT0(st, u)
    {
      UnitsGrow(st, v, u);
    }
  }

  /** Asked after the window of unit u has opened, on whatever grid is held by then and
      whether or not own windows are now skipped: the next window is found if and only if
      the search starts after every window up to u, as they now stand, and not after the
      next one. */
  lemma NextIsSuccessorIff(st: State, skipOwn: bool, u: int, from: int, t0: int, kind: WindowKind, v: int)
    requires -RATE_MAX_PPB <= st.ratePpb <= RATE_MAX_PPB && Placed(st.params)
    requires u >= 0 && IsNextWindow(st, skipOwn, from, t0, kind, v)
    ensures var w := NextUnit(st.params, skipOwn, u);
            && (v == w <==> Passed(st, skipOwn, u, from) && from <= UnitT0(st, w))
            && (v <= u <==> !Passed(st, skipOwn, u, from))
            && (v > w <==> UnitT0(st, w) < from)
  {
    var w := NextUnit(st.params, skipOwn, u);
    if v > w {
      UnitsGrow(st, w, v);
    }
    if v < w {
      UnitsGrow(st, v, w);
    }
    forall x | 0 <= x <= u && v < x
      ensures UnitT0(st, v) < UnitT0(st, x)
    {
      UnitsGrow(st, v, x);
    }
  }

  /** The same in terms of a re-anchor made while the opened window listened: `moved` is how
      far its mark went, `spacing` the distance to the next one on the new grid. Found again
      exactly when it moved by half a pitch or more; the next one hidden exactly when
      spacing and move fall short of half a pitch. */
  lemma FoundAgainOrHiddenIff(st: State, skipOwn: bool, u: int, openedT0Us: int, nowUs: int, t0: int,
                              kind: WindowKind, v: int)
    requires -RATE_MAX_PPB <= st.ratePpb <= RATE_MAX_PPB && Placed(st.params)
    requires Opens(st.params, skipOwn, u) && openedT0Us != 0 && nowUs <= openedT0Us + HALF_PITCH_US
    requires IsNextWindow(st, skipOwn, NextWindowSearchFromUs(nowUs, openedT0Us), t0, kind, v)
    requires BeaconErrLearnable(UnitT0(st, u) - openedT0Us, PITCH_US)
    ensures var moved := UnitT0(st, u) - openedT0Us;
            var spacing := UnitT0(st, NextUnit(st.params, skipOwn, u)) - UnitT0(st, u);
            && (v == u <==> moved >= HALF_PITCH_US)
            && (v > NextUnit(st.params, skipOwn, u) <==> spacing + moved < HALF_PITCH_US)
            && (v == NextUnit(st.params, skipOwn, u) <==> moved < HALF_PITCH_US <= spacing + moved)
  {
    var from := NextWindowSearchFromUs(nowUs, openedT0Us);
    NextIsSuccessorIff(st, skipOwn, u, from, t0, kind, v);
    PassedIff(st, skipOwn, u, from);
    UnitsGrow(st, u, NextUnit(st.params, skipOwn, u));
    if v < u {
      UnitsGrow(st, v, u);
    }
  }

  /** One answered question: the grid held when it was asked, whether own windows were
      skipped, and the window it gave. */
  datatype Question = Question(st: State, skipOwn: bool, nowUs: int, t0Us: int, kind: WindowKind, unit: int)

  /** A run of answered questions, each asked after opening the window before it. In between
      the grid may be re-anchored, its rate relearned and the skipping granted or revoked in
      any way. */
  ghost predicate Answered(p: Params, openedT0Us: int, qs: seq<Question>)
    decreases |qs|
  {
    qs == [] ||
    (var q := qs[0];
     && q.st.params == p && -RATE_MAX_PPB <= q.st.ratePpb <= RATE_MAX_PPB
     && IsNextWindow(q.st, q.skipOwn, NextWindowSearchFromUs(q.nowUs, openedT0Us), q.t0Us, q.kind, q.unit)
     && Answered(p, q.t0Us, qs[1..]))
  }

  /** The answers are the windows to open after unit u, one by one. */
  ghost predicate VisitsInOrder(p: Params, u: int, qs: seq<Question>)
    requires u >= 0 && Placed(p)
    decreases |qs|
  {
    qs == [] ||
    (var w := NextUnit(p, qs[0].skipOwn, u);
     && qs[0].unit == w && qs[0].t0Us == UnitT0(qs[0].st, w)
     && (qs[0].kind.Beacon? <==> IsBeacon(p, w))
     && VisitsInOrder(p, w, qs[1..]))
  }

  /** At every question the search starts after every window up to the opened one and not
      after the next. */
  ghost predicate SearchedBetween(p: Params, u: int, openedT0Us: int, qs: seq<Question>)
    requires u >= 0 && Placed(p)
    decreases |qs|
  {
    qs == [] ||
    (var q, from := qs[0], NextWindowSearchFromUs(qs[0].nowUs, openedT0Us);
     var w := NextUnit(p, q.skipOwn, u);
     && Passed(q.st, q.skipOwn, u, from) && from <= UnitT0(q.st, w)
     && SearchedBetween(p, w, q.t0Us, qs[1..]))
  }

  /** Exactly when repeated asking visits every window in order, none twice and none
      skipped, over any run of questions, re-anchorings, relearned rates and changes of
      the skipping. With own windows skipped throughout these are the beacons. */
  lemma {:induction false} EveryWindowOnceIff(p: Params, u: int, openedT0Us: int, qs: seq<Question>)
    requires Placed(p) && u >= 0 && Answered(p, openedT0Us, qs)
    ensures VisitsInOrder(p, u, qs) <==> SearchedBetween(p, u, openedT0Us, qs)
    decreases |qs|
  {
    if qs != [] {
      var q := qs[0];
      var w := NextUnit(p, q.skipOwn, u);
      NextIsSuccessorIff(q.st, q.skipOwn, u, NextWindowSearchFromUs(q.nowUs, openedT0Us), q.t0Us, q.kind, q.unit);
      EveryWindowOnceIff(p, w, q.t0Us, qs[1..]);
    }
  }

  /** What a caller can promise: before each question the opened mark moved by less than
      half a pitch, whatever the new anchor and rate are, and the next mark has not passed. */
  ghost predicate Careful(p: Params, u: int, openedT0Us: int, qs: seq<Question>)
    requires u >= 0 && Placed(p)
    decreases |qs|
  {
    qs == [] ||
    (var q, w := qs[0], NextUnit(p, qs[0].skipOwn, u);
     && openedT0Us != 0 && -HALF_PITCH_US + 10 <= UnitT0(q.st, u) - openedT0Us < HALF_PITCH_US
     && q.nowUs <= UnitT0(q.st, w)
     && Careful(p, w, q.t0Us, qs[1..]))
  }

  /** Asking again and again after each opened window visits every own and beacon window in
      order, none twice and none skipped, under re-anchorings of -23427 to 23436 us and
      any clamped rate learned in between; the beacons alone while own windows are skipped. */
  lemma {:induction false} EveryWindowOnce(p: Params, u: int, openedT0Us: int, qs: seq<Question>)
    requires Placed(p) && u >= 0 && Answered(p, openedT0Us, qs)
    requires Careful(p, u, openedT0Us, qs)
    ensures VisitsInOrder(p, u, qs)
    decreases |qs|
  {
    if qs != [] {
      var q, from := qs[0], NextWindowSearchFromUs(qs[0].nowUs, openedT0Us);
      var w := NextUnit(p, q.skipOwn, u);
      UnitsGrow(q.st, u, w);
      PassedIff(q.st, q.skipOwn, u, from);
      NextIsSuccessorIff(q.st, q.skipOwn, u, from, q.t0Us, q.kind, q.unit);
      EveryWindowOnce(p, w, q.t0Us, qs[1..]);
    }
  }

  /** With own windows skipped all along: the beacons one after the other, each a whole
      cadence after the one before. */
  ghost predicate VisitsBeacons(p: Params, u: int, qs: seq<Question>)
    decreases |qs|
  {
    qs == [] ||
    (&& qs[0].kind.Beacon? && qs[0].unit == u + SLOT_COUNT * p.beaconEvery
     && qs[0].t0Us == UnitT0(qs[0].st, qs[0].unit)
     && VisitsBeacons(p, qs[0].unit, qs[1..]))
  }

  lemma {:induction false} EveryBeaconOnceIff(p: Params, u: int, openedT0Us: int, qs: seq<Question>)
    requires Placed(p) && p.beaconEvery != 0 && IsBeacon(p, u) && Answered(p, openedT0Us, qs)
    requires forall q <- qs :: q.skipOwn
    ensures VisitsBeacons(p, u, qs) <==> SearchedBetween(p, u, openedT0Us, qs)
    decreases |qs|
  {
    if qs != [] {
      var q := qs[0];
      assert q in qs && forall x <- qs[1..] :: x in qs;
      var w := NextUnit(p, true, u);
      BeaconsAreEvenlySpaced(p, u);
      NextIsSuccessorIff(q.st, true, u, NextWindowSearchFromUs(q.nowUs, openedT0Us), q.t0Us, q.kind, q.unit);
      EveryBeaconOnceIff(p, w, q.t0Us, qs[1..]);
    }
  }

  /** The upper end of the re-anchor's own capture is one microsecond too wide: the opened
      window is found again, on any grid. */
  lemma WidestReanchorFindsItAgain(st: State, skipOwn: bool, u: int, openedT0Us: int, nowUs: int)
    requires -RATE_MAX_PPB <= st.ratePpb <= RATE_MAX_PPB && Opens(st.params, skipOwn, u)
    requires openedT0Us != 0 && nowUs <= openedT0Us + HALF_PITCH_US && UnitT0(st, u) == openedT0Us + HALF_PITCH_US
    ensures BeaconErrLearnable(UnitT0(st, u) - openedT0Us, PITCH_US)
    ensures var kind := if IsBeacon(st.params, u) then Beacon else Own;
            IsNextWindow(st, skipOwn, NextWindowSearchFromUs(nowUs, openedT0Us), UnitT0(st, u), kind, u)
  {
    forall w | 0 <= w < u && Opens(st.params, skipOwn, w)
      ensures UnitT0(st, w) < UnitT0(st, u)
    {
      UnitsGrow(st, w, u);
    }
  }

  /** At the lower end a slow clock's next slot is hidden: a beacon in slot 0, an own window
      in slot 1, a rate of -200 ppm, moved back by half a pitch. */
  lemma WidestReanchorHidesANeighbour(st: State, openedT0Us: int, nowUs: int, t0: int, kind: WindowKind, v: int)
    requires st.ratePpb == -RATE_MAX_PPB && st.params.slotIndex == 1 && st.params.beaconSlot == 0
             && st.params.beaconEvery == 1
    requires openedT0Us != 0 && nowUs <= openedT0Us + HALF_PITCH_US && UnitT0(st, 0) == openedT0Us - HALF_PITCH_US
    requires IsNextWindow(st, false, NextWindowSearchFromUs(nowUs, openedT0Us), t0, kind, v)
    ensures BeaconErrLearnable(UnitT0(st, 0) - openedT0Us, PITCH_US) && IsWindow(st.params, 0)
    ensures NextUnit(st.params, false, 0) == 1 && v > 1
  {
    assert IsBeacon(st.params, 0) && IsOwn(st.params, 1);
    assert UnitT0(st, 1) - UnitT0(st, 0) < PITCH_US by {
      assert TDiv(PITCH_US * -RATE_MAX_PPB, RATE_DEN) == -9;
    }
    FoundAgainOrHiddenIff(st, false, 0, openedT0Us, nowUs, t0, kind, v);
  }
}
