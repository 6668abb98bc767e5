/**
 When the entries of a schedule text fire: the days their words name, on the calendar,
 without the bits and weekday numbers of the code (ScheduleText.h, Scheduler.cpp).
 */
module ScheduleCalendar {
  import opened Machine
  import opened ScheduleWords
  import opened ScheduleText
  import opened ScheduleTextLaws
  import opened ScheduleGrammar
  import Sched = Scheduler

  // ---- days of the week -----------------------------------------------------

  /** A count of weekdays over the local days since the epoch, Monday as 0: day 4, the 5th of
      January 1970, was a Monday, and each day is followed by the next. */
  ghost predicate Calendar(weekday: int -> nat) {
    weekday(4) == 0 && forall d :: weekday(d) < 7 && weekday(d + 1) == (weekday(d) + 1) % 7
  }

  function Distance(d: int): nat {
    if d >= 4 then d - 4 else 4 - d
  }

  lemma {:induction false} WeekdayIs(weekday: int -> nat, d: int)
    requires Calendar(weekday)
    ensures weekday(d) == (d + 3) % 7
    decreases Distance(d)
  {
    if d > 4 {
      WeekdayIs(weekday, d - 1);
      assert weekday((d - 1) + 1) == (weekday(d - 1) + 1) % 7;
      OneOn(d - 1);
    } else if d < 4 {
      WeekdayIs(weekday, d + 1);
      assert weekday(d + 1) == (weekday(d) + 1) % 7;
      OneOn(d);
    }
  }

  lemma OneOn(d: int)
    ensures (d + 1 + 3) % 7 == ((d + 3) % 7 + 1) % 7
  {
  }

  /** 2^k: bit k alone. */
  function Power(k: nat): (p: nat)
    ensures p > 0
  {
    if k == 0 then 1 else 2 * Power(k - 1)
  }

  lemma Powers()
    ensures Power(1) == 2 && Power(2) == 4 && Power(3) == 8 && Power(4) == 16 && Power(5) == 32 && Power(6) == 64
  {
    assert Power(2) == 2 * Power(1) && Power(3) == 2 * Power(2);
    assert Power(4) == 2 * Power(3) && Power(5) == 2 * Power(4) && Power(6) == 2 * Power(5);
  }

  /** The bit the code takes for an instant is that of its day's place in the week. */
  lemma CodeBitIsWeekday(weekday: int -> nat, local: int)
    requires Calendar(weekday)
    ensures Sched.DayBit(Sched.WeekdayOf(local)) == Power(weekday(local / Sched.DAY_S))
  {
    var d := local / Sched.DAY_S;
    WeekdayIs(weekday, d);
    Powers();
    assert ((d + 4) % 7 + 6) % 7 == (d + 3) % 7;
  }

  // ---- masks ----------------------------------------------------------------

  function Bit(b: bool): nat {
    if b then 1 else 0
  }

  /** The 8-bit number of a day mask. */
  function Number8(m: Days): nat {
    Bit(m[0]) + 2 * Bit(m[1]) + 4 * Bit(m[2]) + 8 * Bit(m[3]) + 16 * Bit(m[4]) + 32 * Bit(m[5]) + 64 * Bit(m[6])
    + 128 * Bit(m[7])
  }

  /** Bits below a power of two leave the ones above it alone, and the lowest of those
      tells odd from even. */
  lemma BitAt(n: nat, p: nat, low: nat, b: nat, high: nat)
    requires p in {1, 2, 4, 8, 16, 32, 64} && low < p && b < 2 && n == low + p * (b + 2 * high)
    ensures (n / p) % 2 == b
  {
    assert n / p == b + 2 * high;
  }

  /** Bit k of the number is day k of the mask. */
  lemma BitIsDay(m: Days, k: Day)
    ensures Sched.HasBit(Number8(m), Power(k)) == m[k]
  {
    Powers();
    var n := Number8(m);
    var a, b, c, d := Bit(m[0]), Bit(m[1]), Bit(m[2]), Bit(m[3]);
    var e, f, g, h := Bit(m[4]), Bit(m[5]), Bit(m[6]), Bit(m[7]);
    match k
    case 0 => BitAt(n, 1, 0, a, b + 2 * c + 4 * d + 8 * e + 16 * f + 32 * g + 64 * h);
    case 1 => BitAt(n, 2, a, b, c + 2 * d + 4 * e + 8 * f + 16 * g + 32 * h);
    case 2 => BitAt(n, 4, a + 2 * b, c, d + 2 * e + 4 * f + 8 * g + 16 * h);
    case 3 => BitAt(n, 8, a + 2 * b + 4 * c, d, e + 2 * f + 4 * g + 8 * h);
    case 4 => BitAt(n, 16, a + 2 * b + 4 * c + 8 * d, e, f + 2 * g + 4 * h);
    case 5 => BitAt(n, 32, a + 2 * b + 4 * c + 8 * d + 16 * e, f, g + 2 * h);
    case _ => BitAt(n, 64, a + 2 * b + 4 * c + 8 * d + 16 * e + 32 * f, g, h);
  }

  // ---- when an entry fires --------------------------------------------------

  /** An entry of the text as the scheduler gets it. */
  function Scheduled(e: Entry): Sched.Entry {
    Sched.Entry(e.minuteOfDay, Number8(e.dayMask), true)
  }

  lemma ZeroIsNoDay(m: Days)
    requires Number8(m) == 0
    ensures m == NoDay()
  {
    assert !m[0] && !m[1] && !m[2] && !m[3] && !m[4] && !m[5] && !m[6] && !m[7];
  }

  lemma MaskIsNotZero(m: Days)
    requires SomeDay(m)
    ensures Number8(m) != 0
  {
    if Number8(m) == 0 {
      ZeroIsNoDay(m);
    }
  }

  /** Every entry the parser can produce fires exactly at its minute of the local day, on
      the days of its mask, by any calendar. */
  lemma FiresByCalendar(weekday: int -> nat, e: Entry, t: int, offset: Sched.i32)
    requires Calendar(weekday) && Accepted(e)
    ensures var local := t + offset;
            Sched.Fires(Scheduled(e), t, offset)
            <==> local % Sched.DAY_S == e.minuteOfDay * 60 && e.dayMask[weekday(local / Sched.DAY_S)]
  {
    var local := t + offset;
    CodeBitIsWeekday(weekday, local);
    BitIsDay(e.dayMask, weekday(local / Sched.DAY_S));
    MaskIsNotZero(e.dayMask);
  }

  /** Switched off, without a day or past midnight, an entry never fires. */
  lemma NeverFiresIff(e: Sched.Entry, offset: Sched.i32)
    requires e.dayMask < 128
    ensures (forall t :: !Sched.Fires(e, t, offset)) <==> !e.enabled || e.dayMask == 0 || e.minuteOfDay >= 1440
  {
    if e.enabled && e.dayMask != 0 && e.minuteOfDay < 1440 {
      var k := SetBit(e.dayMask);
      var t := (k + 4) * Sched.DAY_S + e.minuteOfDay * 60 - offset;
      assert t + offset == (k + 4) * Sched.DAY_S + e.minuteOfDay * 60;
      assert (t + offset) / Sched.DAY_S == k + 4 && (t + offset) % Sched.DAY_S == e.minuteOfDay * 60;
      Powers();
      assert Sched.DayBit(Sched.WeekdayOf(t + offset)) == Power(k);
      assert Sched.Fires(e, t, offset);
    }
  }

  /** A mask of seven bits that is not empty has one of them. */
  lemma SetBit(mask: nat) returns (k: Day)
    requires 0 < mask < 128
    ensures Sched.HasBit(mask, Power(k))
  {
    Powers();
    if mask % 2 == 1 {
      k := 0;
    } else if (mask / 2) % 2 == 1 {
      k := 1;
    } else if (mask / 4) % 2 == 1 {
      k := 2;
    } else if (mask / 8) % 2 == 1 {
      k := 3;
    } else if (mask / 16) % 2 == 1 {
      k := 4;
    } else if (mask / 32) % 2 == 1 {
      k := 5;
    } else {
      k := 6;
    }
  }

  // ---- the days as they are written -----------------------------------------

  /** The seven names as documented, Monday first. */
  const WEEK: seq<string> := ["mon", "tue", "wed", "thu", "fri", "sat", "sun"]

  lemma NameIsWritten(d: Day)
    ensures Name(d) == WEEK[d]
  {
  }

  /** The days a day word stands for: 0 is Monday. */
  ghost predicate Written(tok: string, d: Day) {
    || Says(tok, "daily")
    || (Says(tok, "weekdays") && d <= 4)
    || (Says(tok, "weekend") && d >= 5)
    || (exists ds, trailing :: DayList(tok, ds, trailing) && d in ds)
  }

  lemma MaskAsWritten(tok: string, mask: Days, d: Day)
    requires tok != [] && SpellsDays(tok, mask)
    ensures mask[d] <==> Written(tok, d)
  {
    DaysIff(tok, mask);
    forall other | SpellsDays(tok, other)
      ensures other == mask
    {
      DaysIff(tok, other);
    }
    forall ds, trailing | DayList(tok, ds, trailing)
      ensures mask == MaskOf(ds)
    {
      assert SpellsDays(tok, MaskOf(ds));
    }
    if Says(tok, "daily") {
      assert SpellsDays(tok, Daily());
    } else if Says(tok, "weekdays") {
      assert SpellsDays(tok, Weekdays());
    } else if Says(tok, "weekend") {
      assert SpellsDays(tok, Weekend());
    }
  }

  /** From the text to the firing: three words that spell an entry make it fire exactly at
      the minute its time spells, on the days its day word stands for. */
  lemma FiresAsWritten(weekday: int -> nat, w: Triple, e: Entry, t: int, offset: Sched.i32)
    requires Calendar(weekday) && Spells(w, e)
    ensures var local := t + offset;
            Sched.Fires(Scheduled(e), t, offset)
            <==> local % Sched.DAY_S == e.minuteOfDay * 60 && Written(w.days, weekday(local / Sched.DAY_S))
  {
    EntryIff(w, e);
    NeverEmpty(w.days, e.dayMask, 0, 0);
    FiresByCalendar(weekday, e, t, offset);
    MaskAsWritten(w.days, e.dayMask, weekday((t + offset) / Sched.DAY_S));
  }

  lemma OneNameAlone(tok: string, d: Day, x: Day)
    requires LowerAll(tok) == WEEK[d]
    ensures Written(tok, x) <==> x == d
  {
    NameIsWritten(d);
    assert Names([d], true) == Name(d) by {
      assert [d][1..] == [];
    }
    assert LowerAll(tok) == Names([d], true) + "";
    assert DayList(tok, [d], false);
    assert SpellsDays(tok, MaskOf([d]));
    MaskAsWritten(tok, MaskOf([d]), x);
  }

  /** One day name: "mon", in any letter case, fires on local days 4, 11, 18 and so on, and
      on no other; each later name a day later. */
  lemma OneDayFires(weekday: int -> nat, w: Triple, e: Entry, d: Day, t: int, offset: Sched.i32, day: int)
    requires Calendar(weekday) && Spells(w, e) && LowerAll(w.days) == WEEK[d] && day == (t + offset) / Sched.DAY_S
    ensures Sched.Fires(Scheduled(e), t, offset)
       <==> (t + offset) % Sched.DAY_S == e.minuteOfDay * 60 && day % 7 == (4 + d) % 7
  {
    FiresAsWritten(weekday, w, e, t, offset);
    OneNameAlone(w.days, d, weekday(day));
    WeekdayIs(weekday, day);
    SameDay(day, d);
  }

  lemma SameDay(day: int, d: Day)
    ensures (day + 3) % 7 == d <==> day % 7 == (4 + d) % 7
  {
  }

  /** The words fire at t: their time is that minute of the local day, and their day word
      stands for that day. */
  ghost predicate FiresWords(weekday: int -> nat, w: Triple, minute: int, t: int, offset: Sched.i32)
    requires Calendar(weekday)
  {
    (t + offset) % Sched.DAY_S == minute * 60 && Written(w.days, weekday((t + offset) / Sched.DAY_S))
  }

  function AllScheduled(es: seq<Entry>): (ss: seq<Sched.Entry>)
    ensures |ss| == |es| && forall i :: 0 <= i < |es| ==> ss[i] == Scheduled(es[i])
  {
    seq(|es|, i requires 0 <= i < |es| => Scheduled(es[i]))
  }

  /** The scheduler over a text: an answer is the first instant after now at which the words
      of any entry fire, and no answer means that they never do. */
  lemma NextAsWritten(weekday: int -> nat, ws: seq<Triple>, es: seq<Entry>, now: int, offset: Sched.i32, t: int,
                      which: int)
    requires Calendar(weekday) && |ws| == |es| <= MAX_ENTRIES && forall i :: 0 <= i < |es| ==> Spells(ws[i], es[i])
    requires Sched.IsNext(AllScheduled(es), now, offset, t, which)
    ensures t != 0 ==> t > now && 0 <= which < |ws| && FiresWords(weekday, ws[which], es[which].minuteOfDay, t, offset)
    ensures forall u, i :: now < u && (t == 0 || u < t) && 0 <= i < |ws| ==>
              !FiresWords(weekday, ws[i], es[i].minuteOfDay, u, offset)
  {
    var ss := AllScheduled(es);
    if t != 0 {
      FiresAsWritten(weekday, ws[which], es[which], t, offset);
    }
    forall u, i | now < u && (t == 0 || u < t) && 0 <= i < |ws|
      ensures !FiresWords(weekday, ws[i], es[i].minuteOfDay, u, offset)
    {
      FiresAsWritten(weekday, ws[i], es[i], u, offset);
      assert !Sched.AnyFires(ss, Sched.Considered(ss), u, offset);
      assert !Sched.Fires(ss[i], u, offset);
    }
  }

  /** Two dated Mondays: the 5th of January 1970 and the 1st of January 2024. */
  lemma Mondays()
    ensures Sched.LocalWeekdayBit(345600, 0) == 1 && Sched.LocalWeekdayBit(1704067200, 0) == 1
  {
    assert 345600 / Sched.DAY_S == 4 && 1704067200 / Sched.DAY_S == 19723;
  }
}
