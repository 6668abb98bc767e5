/**
 Schedule arithmetic (Scheduler.h/.cpp): the next firing and the last missed one
 of a weekly set, found by walking local days.
 */
module Scheduler {

  const DAY_S: int := 86400
  const WEEK_S: int := 604800
  const MAX_ENTRIES: nat := 8
  const SEARCH_DAYS: nat := 8
  const MINUTES_PER_DAY: int := 1440
  const U64_MOD: int := 0x1_0000_0000_0000_0000
  const FAR_S: int := 0x1000_0000_0000_0000

  type u64 = x: int | 0 <= x < U64_MOD
  type i32 = x: int | -0x8000_0000 <= x < 0x8000_0000

  datatype Entry = Entry(minuteOfDay: nat, dayMask: nat, enabled: bool)

  predicate Valid(e: Entry) {
    e.enabled && e.dayMask != 0 && e.minuteOfDay < MINUTES_PER_DAY
  }

  function Wrap64(x: int): u64 {
    x % U64_MOD
  }

  /** `static_cast<int64_t>` of an unsigned 64-bit value. */
  function Signed(x: u64): int {
    if x < U64_MOD / 2 then x else x - U64_MOD
  }

  // ---- the calendar (gmtime_r on shifted seconds) ---------------------------

  /** Monday is 0; day 0 of the epoch was a Thursday. */
  function WeekdayOf(local: int): nat {
    ((local / DAY_S + 4) % 7 + 6) % 7
  }

  function DayBit(weekday: nat): nat
    requires weekday < 7
  {
    match weekday
    case 0 => 1
    case 1 => 2
    case 2 => 4
    case 3 => 8
    case 4 => 16
    case 5 => 32
    case _ => 64
  }

  /** `(mask & bit) != 0` for a single bit. */
  predicate HasBit(mask: nat, bit: nat)
    requires bit > 0
  {
    (mask / bit) % 2 == 1
  }

  function LocalWeekdayBit(utc: u64, offset: i32): nat {
    DayBit(WeekdayOf(Signed(utc) + offset))
  }

  function LocalMidnightUtc(utc: u64, offset: i32): u64 {
    Wrap64(Signed(utc) - (Signed(utc) + offset) % DAY_S)
  }

  // ---- the reference: the infinite weekly set -------------------------------

  /** Entry e fires at second t of UTC: the local time of day is its minute and the
      local weekday is in its mask. */
  predicate Fires(e: Entry, t: int, offset: i32) {
    Valid(e) && (t + offset) % DAY_S == e.minuteOfDay * 60 && HasBit(e.dayMask, DayBit(WeekdayOf(t + offset)))
  }

  predicate AnyFires(es: seq<Entry>, n: nat, t: int, offset: i32)
    requires n <= |es|
  {
    exists i :: 0 <= i < n && Fires(es[i], t, offset)
  }

  function Considered(es: seq<Entry>): nat {
    if |es| > MAX_ENTRIES then MAX_ENTRIES else |es|
  }

  /** (t, which) is the earliest firing strictly after now, the lowest index at it;
      (0, -1) when there is none at all. */
  ghost predicate IsNext(es: seq<Entry>, now: int, offset: i32, t: int, which: int) {
    var n := Considered(es);
    if t == 0 then which == -1 && forall u :: u > now ==> !AnyFires(es, n, u, offset)
    else
      && t > now && 0 <= which < n && Fires(es[which], t, offset)
      && (forall u :: now < u < t ==> !AnyFires(es, n, u, offset))
      && (forall i :: 0 <= i < which ==> !Fires(es[i], t, offset))
  }

  /** (t, which) is the latest firing in (from, to], the highest index at it. */
  ghost predicate IsLastMissed(es: seq<Entry>, from: int, to: int, offset: i32, t: int, which: int) {
    var n := Considered(es);
    if t == 0 then which == -1 && forall u :: from < u <= to ==> !AnyFires(es, n, u, offset)
    else
      && from < t <= to && 0 <= which < n && Fires(es[which], t, offset)
      && (forall u :: t < u <= to ==> !AnyFires(es, n, u, offset))
      && (forall i :: which < i < n ==> !Fires(es[i], t, offset))
  }

  /** An instant of the clock: from the epoch on, far below the 64-bit range. */
  predicate Sane(utc: int) {
    0 <= utc < FAR_S
  }

  /** The local midnight before an instant; negative on the first day of the epoch. */
  function Midnight(utc: int, offset: i32): int {
    utc - (utc + offset) % DAY_S
  }

  /** On the first day: an entry whose time that day lies before the epoch. */
  predicate BeforeEpoch(e: Entry, midnight: int, offset: i32) {
    Valid(e) && HasBit(e.dayMask, DayBit(WeekdayOf(midnight + offset))) && midnight + e.minuteOfDay * 60 < 0
  }

  /** The one way the search goes wrong: it runs on the first local day of the epoch, some
      entry of that day lies before the epoch, and no other is still to come that day. */
  ghost predicate Misfires(es: seq<Entry>, now: int, offset: i32) {
    var n, m := Considered(es), Midnight(now, offset);
    && (exists i :: 0 <= i < n && BeforeEpoch(es[i], m, offset))
    && (forall u :: now < u < m + DAY_S ==> !AnyFires(es, n, u, offset))
  }

  // ---- lemmas about the week ------------------------------------------------

  lemma ShiftDays(x: int, k: int)
    ensures (x + k * DAY_S) % DAY_S == x % DAY_S && (x + k * DAY_S) / DAY_S == x / DAY_S + k
  {
    var q, r := x / DAY_S, x % DAY_S;
    assert x + k * DAY_S == (q + k) * DAY_S + r;
  }

  /** Within the local day starting at `midnight` an entry fires at most once. */
  lemma DayFiring(e: Entry, midnight: int, t: int, offset: i32)
    requires (midnight + offset) % DAY_S == 0 && midnight <= t < midnight + DAY_S
    ensures Fires(e, t, offset)
       <==> Valid(e) && HasBit(e.dayMask, DayBit(WeekdayOf(midnight + offset))) && t == midnight + e.minuteOfDay * 60
  {
    ShiftDays(t - midnight, (midnight + offset) / DAY_S);
    assert t + offset == (t - midnight) + (midnight + offset) / DAY_S * DAY_S;
  }

  lemma WeekLater(e: Entry, t: int, offset: i32)
    ensures Fires(e, t, offset) <==> Fires(e, t - WEEK_S, offset)
  {
    ShiftDays(t + offset, -7);
    SevenDaysLater((t + offset) / DAY_S);
  }

  lemma SevenDaysLater(day: int)
    ensures (day - 7 + 4) % 7 == (day + 4) % 7
  {
  }

  /** A firing at any distance has one within the next week: why eight days stand
      for the infinite set. */
  lemma {:induction false} FiresWithinAWeek(e: Entry, now: int, t: int, offset: i32) returns (u: int)
    requires Fires(e, t, offset) && t > now
    ensures Fires(e, u, offset) && now < u <= now + WEEK_S
    decreases t - now
  {
    if t <= now + WEEK_S {
      u := t;
    } else {
      WeekLater(e, t, offset);
      u := FiresWithinAWeek(e, now, t - WEEK_S, offset);
    }
  }

  // ---- the searches ---------------------------------------------------------

  /** Best so far of one day's pass over entries [0, i). */
  ghost predicate DayPass(es: seq<Entry>, i: nat, now: int, midnight: int, offset: i32, best: int, which: int)
    requires i <= |es|
  {
    if best == 0 then which == -1 && forall u :: now < u < midnight + DAY_S ==> !AnyFires(es, i, u, offset)
    else
      && now < best < midnight + DAY_S && 0 <= which < i && Fires(es[which], best, offset)
      && (forall u :: now < u < best ==> !AnyFires(es, i, u, offset))
      && (forall k :: 0 <= k < which ==> !Fires(es[k], best, offset))
  }

  /** A day's local midnight, with nothing due between now and it. */
  ghost predicate DayOpens(es: seq<Entry>, n: nat, now: int, midnight: int, offset: i32)
    requires n <= |es|
  {
    && Sane(now) && -DAY_S <= midnight < FAR_S + SEARCH_DAYS * DAY_S && (midnight + offset) % DAY_S == 0
    && (forall u :: now < u < midnight ==> !AnyFires(es, n, u, offset))
  }

  /** One day's pass in 64 bits: right, or an instant before the epoch seen as far ahead. */
  ghost predicate DayResult(es: seq<Entry>, i: nat, now: int, midnight: int, offset: i32, best: int, which: int)
    requires i <= |es|
  {
    if best < U64_MOD / 2 then
      DayPass(es, i, now, midnight, offset, best, which)
      && (best == 0 ==> forall k :: 0 <= k < i ==> !BeforeEpoch(es[k], midnight, offset))
    else
      && DayPass(es, i, now, midnight, offset, 0, -1)
      && 0 <= which < i && BeforeEpoch(es[which], midnight, offset)
      && best == midnight + es[which].minuteOfDay * 60 + U64_MOD
  }

  lemma FewerFire(es: seq<Entry>, i: nat, n: nat, t: int, offset: i32)
    requires i <= n <= |es| && !AnyFires(es, n, t, offset)
    ensures !AnyFires(es, i, t, offset)
  {
  }

  /** When an entry fires on a day, and whether it does. */
  method FireOf(e: Entry, wday: nat, midnight: u64, offset: i32) returns (hit: bool, fire: u64)
    requires wday == LocalWeekdayBit(midnight, offset)
    ensures hit == FiresOn(e, Signed(midnight), offset)
    ensures fire == Wrap64(Wrap64(Signed(midnight)) + e.minuteOfDay * 60)
  {
    hit := Valid(e) && HasBit(e.dayMask, wday);
    fire := Wrap64(midnight + e.minuteOfDay * 60);
  }

  /** The inner loop: all entries against one local day. */
  method SearchDay(es: seq<Entry>, n: nat, now: u64, midnight: u64, offset: i32) returns (best: u64, which: int)
    requires n <= |es|
    ensures best == 0 ==> which == -1
    ensures DayOpens(es, n, now, Signed(midnight), offset) ==>
              DayResult(es, n, now, Signed(midnight), offset, best, which)
  {
    best, which := 0, -1;
    var wday := LocalWeekdayBit(midnight, offset);
    ghost var m := Signed(midnight);
    ghost var opens := DayOpens(es, n, now, m, offset);
    if opens {
      DayPassStart(es, n, now, m, offset);
    }
    for i := 0 to n
      invariant best == 0 ==> which == -1
      invariant opens ==> DayResult(es, i, now, m, offset, best, which)
    {
      ghost var was, wasWhich := best, which;
      var hit, fire := FireOf(es[i], wday, midnight, offset);
      if hit && fire > now && (best == 0 || fire < best) {
        best, which := fire, i;
      }
      if opens {
        DayPassStep(es, i, i + 1, n, now, m, offset, fire, was, wasWhich, best, which);
      }
    }
  }

  /** Whether an entry fires on the local day that starts at `midnight`. */
  predicate FiresOn(e: Entry, midnight: int, offset: i32) {
    Valid(e) && HasBit(e.dayMask, DayBit(WeekdayOf(midnight + offset)))
  }

  /** Entry i is considered: the best so far is replaced exactly by an earlier firing. */
  predicate Improves(hit: bool, fire: u64, now: int, was: u64) {
    hit && fire > now && (was == 0 || fire < was)
  }

  lemma DayFire(e: Entry, midnight: int, offset: i32, u: int)
    requires -DAY_S <= midnight < FAR_S + SEARCH_DAYS * DAY_S && (midnight + offset) % DAY_S == 0
    ensures var t := midnight + e.minuteOfDay * 60;
            Valid(e) ==> Wrap64(Wrap64(midnight) + e.minuteOfDay * 60) == (if t < 0 then t + U64_MOD else t)
    ensures Valid(e) ==> midnight + e.minuteOfDay * 60 < midnight + DAY_S
    ensures midnight <= u < midnight + DAY_S ==>
              (Fires(e, u, offset) <==> FiresOn(e, midnight, offset) && u == midnight + e.minuteOfDay * 60)
  {
    if midnight <= u < midnight + DAY_S {
      DayFiring(e, midnight, u, offset);
    }
  }

  lemma DayPassStart(es: seq<Entry>, n: nat, now: int, midnight: int, offset: i32)
    requires n <= |es| && DayOpens(es, n, now, midnight, offset)
    ensures DayResult(es, 0, now, midnight, offset, 0, -1)
  {
  }

  /** The outer loop. For every instant: the result is the next firing of the infinite set
      if and only if the first day of the epoch does not misfire. */
  method NextOccurrence(es: seq<Entry>, now: u64, offset: i32) returns (best: u64, which: int)
    ensures Sane(now) ==> (IsNext(es, now, offset, best, which) <==> !Misfires(es, now, offset))
    ensures Sane(now) && Misfires(es, now, offset) ==>
              0 <= which < |es| && best == Midnight(now, offset) + es[which].minuteOfDay * 60 + U64_MOD
  {
    best, which := 0, -1;
    if |es| == 0 {
      return;
    }
    var n := Considered(es);
    var midnight0 := LocalMidnightUtc(now, offset);
    ghost var ok, m0 := Sane(now), Midnight(now, offset);
    for day := 0 to SEARCH_DAYS
      invariant best == 0 && which == -1
      invariant ok ==> forall u :: now < u < m0 + day * DAY_S ==> !AnyFires(es, n, u, offset)
      invariant ok && day > 0 ==> forall i :: 0 <= i < n ==> !BeforeEpoch(es[i], m0, offset)
    {
      var midnight := Wrap64(midnight0 + day * DAY_S);
      if ok {
        DayStarts(now, offset, day);
      }
      best, which := SearchDay(es, n, now, midnight, offset);
      if best != 0 {
        if ok {
          FoundOn(es, now, m0, day, offset, best, which);
        }
        return;
      }
    }
    if ok {
      NoneInEightDays(es, now, offset);
    }
  }

  /** What the first day with a hit gives: the next firing, or the misfire. */
  lemma FoundOn(es: seq<Entry>, now: u64, m0: int, day: nat, offset: i32, best: u64, which: int)
    requires Sane(now) && m0 == Midnight(now, offset) && day < SEARCH_DAYS && best != 0
    requires forall u :: now < u < m0 + day * DAY_S ==> !AnyFires(es, Considered(es), u, offset)
    requires day > 0 ==> forall i :: 0 <= i < Considered(es) ==> !BeforeEpoch(es[i], m0, offset)
    requires DayResult(es, Considered(es), now, m0 + day * DAY_S, offset, best, which)
    ensures IsNext(es, now, offset, best, which) <==> !Misfires(es, now, offset)
    ensures Misfires(es, now, offset) ==>
              0 <= which < |es| && best == Midnight(now, offset) + es[which].minuteOfDay * 60 + U64_MOD
  {
    var n, m := Considered(es), m0 + day * DAY_S;
    DayStarts(now, offset, day);
    if best < U64_MOD / 2 {
      DayIsRight(es, now, m0, day, offset, best, which);
    } else {
      assert day == 0;
      FarIsNoFiring(es[which], m, offset);
    }
  }

  lemma DayIsRight(es: seq<Entry>, now: u64, m0: int, day: nat, offset: i32, best: u64, which: int)
    requires Sane(now) && m0 == Midnight(now, offset) && day < SEARCH_DAYS && best != 0
    requires forall u :: now < u < m0 + day * DAY_S ==> !AnyFires(es, Considered(es), u, offset)
    requires day > 0 ==> forall i :: 0 <= i < Considered(es) ==> !BeforeEpoch(es[i], m0, offset)
    requires DayPass(es, Considered(es), now, m0 + day * DAY_S, offset, best, which)
    ensures IsNext(es, now, offset, best, which) && !Misfires(es, now, offset)
  {
    assert AnyFires(es, Considered(es), best, offset);
  }

  /** 2^64 seconds are not a whole number of days: the wrapped instant is no firing. */
  lemma FarIsNoFiring(e: Entry, midnight: int, offset: i32)
    requires -DAY_S <= midnight && (midnight + offset) % DAY_S == 0 && Valid(e)
    ensures !Fires(e, midnight + e.minuteOfDay * 60 + U64_MOD, offset)
  {
    var d := (midnight + offset) / DAY_S + U64_MOD / DAY_S;
    var rest := e.minuteOfDay * 60 + U64_MOD % DAY_S;
    assert midnight + e.minuteOfDay * 60 + U64_MOD + offset == rest + d * DAY_S;
    ShiftDays(rest, d);
    assert U64_MOD % DAY_S == 25216;
  }

  lemma DayStarts(now: u64, offset: i32, day: nat)
    requires Sane(now) && day <= SEARCH_DAYS
    ensures var m0 := Midnight(now, offset);
            && LocalMidnightUtc(now, offset) == Wrap64(m0) && -DAY_S < m0 <= now < m0 + DAY_S
            && Wrap64(Wrap64(m0) + day * DAY_S) == Wrap64(m0 + day * DAY_S)
            && Signed(Wrap64(m0 + day * DAY_S)) == m0 + day * DAY_S < FAR_S + SEARCH_DAYS * DAY_S
            && (m0 + day * DAY_S + offset) % DAY_S == 0
  {
    ShiftDays(0, (now + offset) / DAY_S);
    assert Midnight(now, offset) + offset == (now + offset) / DAY_S * DAY_S;
    ShiftDays(Midnight(now, offset) + offset, day);
  }

  lemma DayPassStep(es: seq<Entry>, i: nat, m: nat, n: nat, now: u64, midnight: int, offset: i32, fire: u64,
                    was: u64, wasWhich: int, best: u64, which: int)
    requires m == i + 1 <= n <= |es| && DayOpens(es, n, now, midnight, offset)
    requires DayResult(es, i, now, midnight, offset, was, wasWhich)
    requires fire == Wrap64(Wrap64(midnight) + es[i].minuteOfDay * 60)
    requires if Improves(FiresOn(es[i], midnight, offset), fire, now, was) then best == fire && which == i
             else best == was && which == wasWhich
    ensures DayResult(es, m, now, midnight, offset, best, which)
  {
    DayFire(es[i], midnight, offset, fire);
    var end := if best == 0 || best >= U64_MOD / 2 then midnight + DAY_S else best;
    forall u | now < u < end
      ensures !AnyFires(es, m, u, offset)
    {
      if u >= midnight {
        DayFire(es[i], midnight, offset, u);
        assert !AnyFires(es, i, u, offset);
      } else {
        FewerFire(es, m, n, u, offset);
      }
    }
    if 0 < best < U64_MOD / 2 && which == i {
      forall k | 0 <= k < i
        ensures !Fires(es[k], best, offset)
      {
        assert !AnyFires(es, i, best, offset);
      }
    }
  }

  lemma NoneInEightDays(es: seq<Entry>, now: u64, offset: i32)
    requires Sane(now)
    requires forall u :: now < u < Midnight(now, offset) + SEARCH_DAYS * DAY_S ==>
               !AnyFires(es, Considered(es), u, offset)
    ensures forall u :: u > now ==> !AnyFires(es, Considered(es), u, offset)
  {
    forall u | u > now
      ensures !AnyFires(es, Considered(es), u, offset)
    {
      if AnyFires(es, Considered(es), u, offset) {
        var i :| 0 <= i < Considered(es) && Fires(es[i], u, offset);
        var v := FiresWithinAWeek(es[i], now, u, offset);
        assert AnyFires(es, Considered(es), v, offset);
      }
    }
  }

  // ---- the last missed firing -----------------------------------------------

  /** The latest firing found after the days before `midnight` and entries [0, i) of
      that day. */
  ghost predicate MissedPass(es: seq<Entry>, n: nat, i: nat, from: int, to: int, midnight: int, offset: i32,
                             best: int, which: int)
    requires i <= n <= |es|
  {
    && (best == 0 ==> which == -1)
    && (best != 0 ==>
          && from < best <= to && best < midnight + DAY_S && 0 <= which < n && Fires(es[which], best, offset)
          && (forall k :: which < k < (if best < midnight then n else i) ==> !Fires(es[k], best, offset)))
    && (forall u :: from < u <= to && best < u < midnight ==> !AnyFires(es, n, u, offset))
    && (forall u :: from < u <= to && best < u && midnight <= u < midnight + DAY_S ==> !AnyFires(es, i, u, offset))
  }

  /** Entry i is considered: a firing in (from, to] no earlier than the best replaces it. */
  predicate IsLater(hit: bool, fire: u64, from: u64, to: u64, was: u64) {
    hit && from < fire <= to && (was == 0 || fire >= was)
  }

  lemma MissedPassStep(es: seq<Entry>, n: nat, i: nat, m: nat, from: u64, to: u64, midnight: int, offset: i32,
                       fire: u64, was: u64, wasWhich: int, best: u64, which: int)
    requires m == i + 1 <= n <= |es| && -DAY_S <= midnight < FAR_S + 2 * DAY_S && (midnight + offset) % DAY_S == 0
    requires to < FAR_S && MissedPass(es, n, i, from, to, midnight, offset, was, wasWhich)
    requires fire == Wrap64(Wrap64(midnight) + es[i].minuteOfDay * 60)
    requires if IsLater(FiresOn(es[i], midnight, offset), fire, from, to, was) then best == fire && which == i
             else best == was && which == wasWhich
    ensures MissedPass(es, n, m, from, to, midnight, offset, best, which)
  {
    DayFire(es[i], midnight, offset, fire);
    DayFire(es[i], midnight, offset, best);
    forall u | from < u <= to && best < u && midnight <= u < midnight + DAY_S
      ensures !AnyFires(es, m, u, offset)
    {
      DayFire(es[i], midnight, offset, u);
      assert !AnyFires(es, i, u, offset);
    }
  }

  /** A local day of the walk, with the days before it done. */
  ghost predicate Walks(es: seq<Entry>, n: nat, from: int, to: int, midnight: int, offset: i32, best: int, which: int)
    requires n <= |es|
  {
    && to < FAR_S && -DAY_S <= midnight < FAR_S + 2 * DAY_S && (midnight + offset) % DAY_S == 0
    && MissedPass(es, n, 0, from, to, midnight, offset, best, which)
  }

  /** The inner loop of last_missed: later firings replace earlier ones. */
  method SearchMissedDay(es: seq<Entry>, n: nat, from: u64, to: u64, midnight: u64, offset: i32, best0: u64,
                         which0: int)
    returns (best: u64, which: int)
    requires n <= |es|
    ensures Walks(es, n, from, to, Signed(midnight), offset, best0, which0)
            ==> MissedPass(es, n, n, from, to, Signed(midnight), offset, best, which)
  {
    best, which := best0, which0;
    var wday := LocalWeekdayBit(midnight, offset);
    ghost var m := Signed(midnight);
    ghost var ok := Walks(es, n, from, to, m, offset, best0, which0);
    for i := 0 to n
      invariant ok ==> MissedPass(es, n, i, from, to, m, offset, best, which)
    {
      ghost var was, wasWhich := best, which;
      var hit, fire := FireOf(es[i], wday, midnight, offset);
      if hit && from < fire <= to && (best == 0 || fire >= best) {
        best, which := fire, i;
      }
      if ok {
        MissedPassStep(es, n, i, i + 1, from, to, m, offset, fire, was, wasWhich, best, which);
      }
    }
  }

  lemma MissedDayDone(es: seq<Entry>, n: nat, from: int, to: int, midnight: int, next: int, offset: i32, best: int,
                       which: int)
    requires n <= |es| && next == midnight + DAY_S && MissedPass(es, n, n, from, to, midnight, offset, best, which)
    ensures MissedPass(es, n, 0, from, to, next, offset, best, which)
  {
  }

  lemma MissedStart(es: seq<Entry>, n: nat, from: int, to: int, midnight: int, offset: i32)
    requires n <= |es| && midnight <= from
    ensures MissedPass(es, n, 0, from, to, midnight, offset, 0, -1)
  {
  }

  lemma MissedEnd(es: seq<Entry>, from: int, to: int, end: int, offset: i32, best: int, which: int)
    requires 0 <= from && to < end && MissedPass(es, Considered(es), 0, from, to, end, offset, best, which)
    ensures IsLastMissed(es, from, to, offset, best, which)
  {
  }

  /** The outer loop of last_missed, right for every instant, the first day included. */
  method LastMissed(es: seq<Entry>, from: u64, to: u64, offset: i32) returns (best: u64, which: int)
    ensures Sane(from) && Sane(to) ==> IsLastMissed(es, from, to, offset, best, which)
  {
    best, which := 0, -1;
    if |es| == 0 || to <= from {
      return;
    }
    var n := Considered(es);
    var first := LocalMidnightUtc(from, offset);
    var spanDays := Wrap64(to - first) / DAY_S + 1;
    ghost var ok, m0 := Sane(from) && Sane(to), Midnight(from, offset);
    if ok {
      DayStarts(from, offset, 0);
      MissedStart(es, n, from, to, m0, offset);
      assert Wrap64(to - first) == to - m0;
    }
    var day := 0;
    while day <= spanDays
      invariant 0 <= day <= spanDays + 1
      invariant ok ==> MissedPass(es, n, 0, from, to, m0 + day * DAY_S, offset, best, which)
    {
      var midnight := Wrap64(first + day * DAY_S);
      if ok {
        MidnightIsLocal(from, to, m0, first, day, spanDays, offset);
      }
      best, which := SearchMissedDay(es, n, from, to, midnight, offset, best, which);
      if ok {
        MissedDayDone(es, n, from, to, m0 + day * DAY_S, m0 + (day + 1) * DAY_S, offset, best, which);
      }
      day := day + 1;
    }
    if ok {
      assert to < m0 + day * DAY_S;
      MissedEnd(es, from, to, m0 + day * DAY_S, offset, best, which);
    }
  }

  lemma MidnightIsLocal(from: u64, to: u64, m0: int, first: u64, day: nat, spanDays: nat, offset: i32)
    requires Sane(from) && from < to < FAR_S && m0 == Midnight(from, offset) && first == Wrap64(m0)
    requires spanDays == (to - m0) / DAY_S + 1 && day <= spanDays
    ensures Signed(Wrap64(first + day * DAY_S)) == m0 + day * DAY_S < FAR_S + 2 * DAY_S
    ensures -DAY_S <= m0 + day * DAY_S && (m0 + day * DAY_S + offset) % DAY_S == 0
  {
    DayStarts(from, offset, 0);
    ShiftDays(m0 + offset, day);
  }

  /** A firing was missed in (from, to] exactly when the next one after `from` exists
      and is not after `to`; and then that next one is no later than the last. */
  lemma MissedIffNextIsDue(es: seq<Entry>, from: int, to: int, offset: i32, next: int, nextWhich: int, last: int,
                           lastWhich: int)
    requires 0 <= from
    requires IsNext(es, from, offset, next, nextWhich) && IsLastMissed(es, from, to, offset, last, lastWhich)
    ensures last != 0 <==> next != 0 && next <= to
    ensures last != 0 ==> next <= last
  {
    var n := Considered(es);
    if last != 0 {
      assert AnyFires(es, n, last, offset);
    }
    if next != 0 {
      assert AnyFires(es, n, next, offset);
    }
  }

  /** Such a day: 100 s into the epoch at one hour east, an entry at 00:30 alone. The
      search gives an instant near 2^64. */
  lemma FirstDayMisfires()
    ensures Sane(100) && Misfires([Entry(30, 8, true)], 100, 3600) && Midnight(100, 3600) == -3600
  {
    var e := Entry(30, 8, true);
    assert WeekdayOf(Midnight(100, 3600) + 3600) == 3;
    assert BeforeEpoch([e][0], -3600, 3600);
    forall u | 100 < u < -3600 + DAY_S
      ensures !AnyFires([e], 1, u, 3600)
    {
      DayFire(e, -3600, 3600, u);
    }
  }

  /** It takes a day that began before the epoch: an hour's offset east, at most a day in. */
  lemma MisfiresOnlyOnTheFirstDay(es: seq<Entry>, now: int, offset: i32)
    requires Sane(now) && Misfires(es, now, offset)
    ensures now < DAY_S && Midnight(now, offset) < 0
  {
  }
}
