/**
 How long a buffer the schedule printer needs, what a short one does, and that letter
 case does not matter (ScheduleText.h; the echo buffer is schedule_text.cpp's).
 */
module ScheduleTextRoom {
  import opened Machine
  import opened ScheduleWords
  import opened ScheduleText
  import opened ScheduleTextLaws

  const LONGEST_ENTRY: nat := 42
  const ENOUGH: nat := 351

  // ---- lengths --------------------------------------------------------------

  lemma {:induction false} NamesLength(ds: seq<Day>, first: bool)
    ensures |Names(ds, first)| == 4 * |ds| - (if first && ds != [] then 1 else 0)
    decreases |ds|
  {
    if ds != [] {
      NamesLength(ds[1..], false);
    }
  }

  function OffDays(mask: Days, d: nat): nat
    requires d <= 7
    decreases 7 - d
  {
    if d == 7 then 0 else (if mask[d] then 0 else 1) + OffDays(mask, d + 1)
  }

  lemma {:induction false} DayCount(mask: Days, d: nat)
    requires d <= 7
    ensures |DaysIn(mask, d)| + OffDays(mask, d) == 7 - d
    ensures (exists i :: d <= i < 7 && !mask[i]) ==> OffDays(mask, d) > 0
    decreases 7 - d
  {
    if d < 7 {
      DayCount(mask, d + 1);
    }
  }

  lemma DaysLength(mask: Days)
    requires SomeDay(mask)
    ensures |DaysText(mask)| <= 23
  {
    if mask != Daily() && mask != Weekdays() && mask != Weekend() {
      assert exists i :: 0 <= i < 7 && !mask[i];
      DayCount(mask, 0);
      NamesLength(DaysIn(mask, 0), true);
    }
  }

  lemma EntryLength(e: Entry)
    requires Accepted(e)
    ensures |Spelled(TripleOf(e))| == 7 + |DaysText(e.dayMask)| + |ActionText(e.action, e.positionPct)| <= LONGEST_ENTRY
  {
    DaysLength(e.dayMask);
  }

  function LengthOf(ts: seq<Triple>): nat
    decreases |ts|
  {
    if ts == [] then 0 else 2 + |Spelled(ts[0])| + LengthOf(ts[1..])
  }

  lemma {:induction false} JoinedLength(ts: seq<Triple>, first: bool)
    ensures |Joined(ts, first)| == LengthOf(ts) - (if first && ts != [] then 2 else 0)
    decreases |ts|
  {
    if ts != [] {
      JoinedLength(ts[1..], false);
    }
  }

  lemma {:induction false} LengthBound(ts: seq<Triple>)
    requires forall i :: 0 <= i < |ts| ==> |Spelled(ts[i])| <= LONGEST_ENTRY
    ensures LengthOf(ts) <= (LONGEST_ENTRY + 2) * |ts|
    decreases |ts|
  {
    if ts != [] {
      LengthBound(ts[1..]);
    }
  }

  /** 351 bytes hold every schedule the parser can produce, whole. */
  lemma EnoughForAll(es: seq<Entry>)
    requires WellFormed(es)
    ensures Render("", Pieces(es, true), ENOUGH) == Text(es)
    ensures Parsed(Render("", Pieces(es, true), ENOUGH)) == ParseResult(true, es, "")
  {
    var ts := TriplesOf(es);
    forall i | 0 <= i < |ts|
      ensures |Spelled(ts[i])| <= LONGEST_ENTRY
    {
      EntryLength(es[i]);
    }
    TextIsJoined(es, true);
    JoinedLength(ts, true);
    LengthBound(ts);
    WholeIffItFits(es, ENOUGH);
    PrintThenParse(es);
  }

  // ---- the longest schedule, and one a short buffer changes -----------------

  /** Monday to Saturday, and Monday alone. */
  function SixDays(): Days {
    [true, true, true, true, true, true, false, false]
  }

  function OneDay(): Days {
    [true, false, false, false, false, false, false, false]
  }

  function At(mask: Days, pct: u8): (e: Entry)
    requires SomeDay(mask) && pct <= 100
    ensures Accepted(e)
  {
    Entry(0, mask, ACTION_POSITION, pct)
  }

  lemma SomeDays()
    ensures SomeDay(SixDays()) && SomeDay(OneDay()) && |DaysText(SixDays())| == 23 && |DaysText(OneDay())| == 3
  {
    assert SixDays()[0] && OneDay()[0];
    assert SixDays() != Daily() && SixDays() != Weekdays() && SixDays() != Weekend() by {
      assert SixDays()[6] != Daily()[6] && SixDays()[5] != Weekdays()[5] && SixDays()[0] != Weekend()[0];
    }
    assert OneDay() != Daily() && OneDay() != Weekdays() && OneDay() != Weekend() by {
      assert OneDay()[1] != Daily()[1] && OneDay()[1] != Weekdays()[1] && OneDay()[0] != Weekend()[0];
    }
    OffSix();
    OffOne();
    DayCount(SixDays(), 0);
    DayCount(OneDay(), 0);
    NamesLength(DaysIn(SixDays(), 0), true);
    NamesLength(DaysIn(OneDay(), 0), true);
  }

  lemma OffSix()
    ensures OffDays(SixDays(), 0) == 1
  {
    var m := SixDays();
    assert OffDays(m, 5) == 1;
    assert OffDays(m, 3) == 1;
    assert OffDays(m, 1) == 1;
  }

  lemma OffOne()
    ensures OffDays(OneDay(), 0) == 6
  {
    var m := OneDay();
    assert OffDays(m, 5) == 2;
    assert OffDays(m, 3) == 4;
    assert OffDays(m, 1) == 6;
  }

  lemma {:induction false} CopiesLength(ts: seq<Triple>, n: nat)
    requires forall i :: 0 <= i < |ts| ==> |Spelled(ts[i])| == n
    ensures LengthOf(ts) == (n + 2) * |ts|
    decreases |ts|
  {
    if ts != [] {
      CopiesLength(ts[1..], n);
    }
  }

  lemma AtLength(mask: Days, pct: u8)
    requires SomeDay(mask) && pct <= 100
    ensures |Spelled(TripleOf(At(mask, pct)))|
         == 16 + |DaysText(mask)| + (if pct >= 100 then 3 else if pct >= 10 then 2 else 1)
  {
    EntryLength(At(mask, pct));
  }

  /** 351 is the least that does: some schedule has 350 characters. */
  lemma NothingLessIsEnough()
    ensures exists es :: WellFormed(es) && |Text(es)| == ENOUGH - 1
  {
    SomeDays();
    var e := At(SixDays(), 100);
    var es := seq(8, i requires 0 <= i < 8 => e);
    AtLength(SixDays(), 100);
    CopiesLength(TriplesOf(es), 42);
    JoinedLength(TriplesOf(es), true);
    TextIsJoined(es, true);
    assert WellFormed(es);
  }

  // ---- a short buffer -------------------------------------------------------

  lemma PiecesOfOne(e: Entry, first: bool)
    ensures Pieces([e], first) == (if first then [] else [Put("; ")]) + EntryPieces(e)
  {
    assert [e][1..] == [];
    assert Pieces([e][1..], false) == [];
    assert EntryPieces(e) + [] == EntryPieces(e);
  }

  lemma Regroup(a: seq<Piece>, b: seq<Piece>, c: seq<Piece>, d: seq<Piece>)
    ensures a + (b + (c + d)) == (a + (b + c)) + d
  {
  }

  lemma {:induction false} PiecesOfLast(es: seq<Entry>, e: Entry, first: bool)
    ensures Pieces(es + [e], first)
            == Pieces(es, first) + ((if first && es == [] then [] else [Put("; ")]) + EntryPieces(e))
    decreases |es|
  {
    if es == [] {
      assert es + [e] == [e];
      PiecesOfOne(e, first);
    } else {
      assert (es + [e])[1..] == es[1..] + [e];
      PiecesOfLast(es[1..], e, false);
      Regroup(if first then [] else [Put("; ")], EntryPieces(es[0]), Pieces(es[1..], false),
              [Put("; ")] + EntryPieces(e));
    }
  }

  /** Everything a position entry prints before its percentage. */
  function Lead(e: Entry): seq<Piece> {
    [Put2(e.minuteOfDay / 60), Put(":"), Put2(e.minuteOfDay % 60), Put(" ")]
        + (DayPieces(e.dayMask) + [Put(" "), Put("position:")])
  }

  lemma LeadAndPercent(e: Entry, last: Piece)
    requires e.action == ACTION_POSITION && ActionPieces(e) == [Put("position:"), last]
    ensures EntryPieces(e) == Lead(e) + [last]
  {
    assert [Put(" ")] + [Put("position:"), last] == [Put(" "), Put("position:")] + [last];
  }

  lemma CutBy(a: seq<Piece>, n: nat)
    requires n == |Cat(a)| + 2
    ensures Render("", a + [Put("100")], n) == Cat(a) + "1" == Cat(a + [Put1(1)])
  {
    CatAppend(a, [Put1(1)]);
    assert Cat([Put1(1)]) == [DigitChar(1)] == "1";
    RenderWhole("", a, n);
    assert "" + Cat(a) == Cat(a);
    RenderAppend("", a, [Put("100")], n);
    var o := Cat(a);
    assert "100"[..1] == "1";
    assert Render(o, [Put("100")], n) == Render(PutPiece(o, Put("100"), n), [], n);
  }

  function LeadAll(es: seq<Entry>, e: Entry): seq<Piece> {
    Pieces(es, true) + ((if es == [] then [] else [Put("; ")]) + Lead(e))
  }

  lemma SplitLast(es: seq<Entry>, e: Entry, last: Piece)
    requires e.action == ACTION_POSITION && ActionPieces(e) == [Put("position:"), last]
    ensures Pieces(es + [e], true) == LeadAll(es, e) + [last]
  {
    PiecesOfLast(es, e, true);
    LeadAndPercent(e, last);
    Regroup(Pieces(es, true), if es == [] then [] else [Put("; ")], Lead(e), [last]);
  }

  lemma OtherPercent(es: seq<Entry>, e: Entry, f: Entry)
    requires WellFormed(es + [e]) && Accepted(f)
    ensures WellFormed(es + [f])
  {
    forall i | 0 <= i < |es|
      ensures Accepted(es[i])
    {
      assert (es + [e])[i] == es[i];
    }
  }

  /** A buffer that ends inside "position:100" holds the text of a schedule that moves
      to 1 percent: it reads back without an error, as a different schedule. */
  lemma CutPercentageMisleads(es: seq<Entry>, e: Entry, f: Entry, n: nat)
    requires WellFormed(es + [e]) && Accepted(f) && e.action == ACTION_POSITION && e.positionPct == 100
    requires f == e.(positionPct := 1) && n == |Text(es + [f])| + 1
    ensures Parsed(Render("", Pieces(es + [e], true), n)) == ParseResult(true, es + [f], "")
  {
    SplitLast(es, e, Put("100"));
    SplitLast(es, f, Put1(1));
    var a := LeadAll(es, e);
    CatAppend(a, [Put1(1)]);
    CutBy(a, n);
    OtherPercent(es, e, f);
    PrintThenParse(es + [f]);
  }

  /** Printed into n bytes, the schedule reads back as another one. */
  ghost predicate Misread(es: seq<Entry>, n: nat)
    requires n > 0
  {
    var r := Parsed(Render("", Pieces(es, true), n));
    WellFormed(es) && r.ok && r.entries != es
  }

  lemma EchoCase(long: Entry, short: Entry, last: Entry, cut: Entry)
    requires Accepted(long) && Accepted(short) && Accepted(last) && Accepted(cut)
    requires |Spelled(TripleOf(long))| == 42 && |Spelled(TripleOf(short))| == 41 && |Spelled(TripleOf(cut))| == 20
    requires last.action == ACTION_POSITION && last.positionPct == 100 && cut == last.(positionPct := 1)
    ensures Misread([long, long, long, long, short] + [last], TEXT_LEN)
  {
    var es := [long, long, long, long, short];
    SixLengths(es, cut);
    CutPercentageMisleads(es, last, cut, TEXT_LEN);
    LastDiffers(es, last, cut);
  }

  lemma LastDiffers(es: seq<Entry>, e: Entry, f: Entry)
    requires e != f
    ensures es + [e] != es + [f]
  {
    assert (es + [e])[|es|] != (es + [f])[|es|];
  }

  lemma EntryOf(mask: Days, pct: u8) returns (e: Entry)
    requires SomeDay(mask) && pct <= 100
    ensures e == Entry(0, mask, ACTION_POSITION, pct) && Accepted(e)
    ensures |Spelled(TripleOf(e))| == 16 + |DaysText(mask)| + (if pct >= 100 then 3 else if pct >= 10 then 2 else 1)
  {
    e := At(mask, pct);
    AtLength(mask, pct);
  }

  lemma EchoSchedule(six: Days, one: Days) returns (es: seq<Entry>)
    requires SomeDay(six) && SomeDay(one) && |DaysText(six)| == 23 && |DaysText(one)| == 3
    ensures |es| == 6 && Misread(es, TEXT_LEN)
  {
    var long := EntryOf(six, 100);
    var short := EntryOf(six, 10);
    var last := EntryOf(one, 100);
    var cut := EntryOf(one, 1);
    EchoCase(long, short, last, cut);
    es := [long, long, long, long, short] + [last];
  }

  /** The 240-byte echo buffer is such a buffer for a schedule of six entries. */
  lemma EchoBufferCanMislead()
    ensures exists es: seq<Entry> :: |es| == 6 && Misread(es, TEXT_LEN)
  {
    SomeDays();
    var es := EchoSchedule(SixDays(), OneDay());
  }

  lemma SixLengths(es: seq<Entry>, e: Entry)
    requires |es| == 5 && Accepted(e) && forall i :: 0 <= i < 5 ==> Accepted(es[i])
    ensures |Text(es + [e])|
            == 10 + |Spelled(TripleOf(es[0]))| + |Spelled(TripleOf(es[1]))| + |Spelled(TripleOf(es[2]))|
                              + |Spelled(TripleOf(es[3]))| + |Spelled(TripleOf(es[4]))| + |Spelled(TripleOf(e))|
  {
    var all := es + [e];
    TextIsJoined(all, true);
    JoinedLength(TriplesOf(all), true);
    LengthStep(all);
    LengthStep(all[1..]);
    LengthStep(all[2..]);
    LengthStep(all[3..]);
    LengthStep(all[4..]);
    LengthStep(all[5..]);
    assert all[1..][1..] == all[2..] && all[2..][1..] == all[3..] && all[3..][1..] == all[4..]
           && all[4..][1..] == all[5..];
    assert all[5..][1..] == [];
  }

  lemma LengthStep(es: seq<Entry>)
    ensures es != [] ==> LengthOf(TriplesOf(es)) == 2 + |Spelled(TripleOf(es[0]))| + LengthOf(TriplesOf(es[1..]))
  {
    if es != [] {
      assert TriplesOf(es)[1..] == TriplesOf(es[1..]);
    }
  }

  // ---- letter case ----------------------------------------------------------

  lemma {:induction false} LowerFind(s: string, c: char)
    requires Lower(c) == c && (c < 'a' || 'z' < c)
    ensures Find(LowerAll(s), c) == Find(s, c)
    decreases |s|
  {
    if s != [] {
      LowerTail(s, 1);
      LowerFind(s[1..], c);
    }
  }

  lemma LowerToken(tok: string, lit: string)
    ensures TokenIs(LowerAll(tok), lit) <==> TokenIs(tok, lit)
  {
  }

  lemma {:induction false} LowerNumber(s: string)
    ensures Number(LowerAll(s)) == Number(s)
    decreases |s|
  {
    if s != [] {
      LowerTail(s, |s| - 1);
      LowerNumber(s[..|s| - 1]);
    }
  }

  lemma {:induction false} LowerPercent(s: string, v: nat)
    ensures Percent(LowerAll(s), v) == Percent(s, v)
    decreases |s|
  {
    if s != [] && IsDigit(s[0]) {
      LowerTail(s, 1);
      LowerPercent(s[1..], v * 10 + DigitOf(s[0]));
    }
  }

  /** Equal but for the token an error quotes. */
  predicate Agree<T(==)>(a: Res<T>, b: Res<T>) {
    (a.Ok? && b.Ok? && a.v == b.v) || (a.Bad? && b.Bad? && a.msg == b.msg)
  }

  lemma LowerTime(tok: string)
    ensures Agree(ParseTime(LowerAll(tok)), ParseTime(tok))
  {
    var c := Find(tok, ':');
    LowerFind(tok, ':');
    LowerTail(tok, c);
    LowerNumber(tok[..c]);
    if c < |tok| {
      LowerTail(tok, c + 1);
      LowerNumber(tok[c + 1..]);
    }
  }

  lemma LowerDayBit(tok: string)
    ensures DayBit(LowerAll(tok)) == DayBit(tok)
  {
    LowerToken(tok, "mon");
    LowerToken(tok, "tue");
    LowerToken(tok, "wed");
    LowerToken(tok, "thu");
    LowerToken(tok, "fri");
    LowerToken(tok, "sat");
    LowerToken(tok, "sun");
  }

  lemma {:induction false} LowerDayList(s: string, mask: Days)
    requires !mask[7]
    ensures Agree(SetDays(Commas(LowerAll(s)), mask), SetDays(Commas(s), mask))
    decreases |s|
  {
    if s != [] {
      var c := Find(s, ',');
      LowerFind(s, ',');
      LowerTail(s, c);
      LowerDayBit(s[..c]);
      var more := if c < |s| then s[c + 1..] else [];
      assert LowerAll(more) == (if c < |s| then LowerAll(s)[c + 1..] else []) by {
        if c < |s| {
          LowerTail(s, c + 1);
        }
      }
      SetFirst(s, c, more, mask);
      SetFirst(LowerAll(s), c, LowerAll(more), mask);
      if DayBit(s[..c]).Some? {
        LowerDayList(more, mask[DayBit(s[..c]).value := true]);
      }
    }
  }

  lemma SetFirst(s: string, c: nat, more: string, mask: Days)
    requires s != [] && c == Find(s, ',') && more == (if c < |s| then s[c + 1..] else []) && !mask[7]
    ensures SetDays(Commas(s), mask) == (match DayBit(s[..c])
                                         case None => Bad(UnknownDay, Some(s[..c]))
                                         case Some(d) => SetDays(Commas(more), mask[d := true]))
  {
    assert Commas(s)[1..] == Commas(more);
  }

  lemma LowerDayField(tok: string)
    requires tok != []
    ensures LowerAll(tok) != [] && Agree(ParseDays(LowerAll(tok)), ParseDays(tok))
  {
    LowerToken(tok, "daily");
    LowerToken(tok, "weekdays");
    LowerToken(tok, "weekend");
    LowerDayList(tok, NoDay());
  }

  lemma LowerAction(tok: string)
    ensures Agree(ParseAction(LowerAll(tok)), ParseAction(tok))
  {
    var c := Find(tok, ':');
    LowerFind(tok, ':');
    LowerTail(tok, c);
    LowerToken(tok, "open");
    LowerToken(tok, "close");
    LowerToken(tok, "stop");
    LowerToken(tok[..c], "position");
    if c < |tok| {
      LowerTail(tok, c + 1);
      LowerPercent(tok[c + 1..], 0);
    }
  }

  lemma LowerEntry(t: Triple)
    ensures Agree(ReadEntry(LowerTriple(t)), ReadEntry(t))
  {
    LowerTime(t.time);
    if t.days != [] {
      LowerDayField(t.days);
    }
    if t.action != [] {
      LowerAction(t.action);
    }
  }

  lemma {:induction false} CollectAgrees(a: seq<Res<Entry>>, b: seq<Res<Entry>>, acc: seq<Entry>)
    requires |a| == |b| && forall i :: 0 <= i < |a| ==> Agree(a[i], b[i])
    ensures Collect(a, acc).ok == Collect(b, acc).ok && Collect(a, acc).entries == Collect(b, acc).entries
    decreases |a|
  {
    if a != [] && a[0].Ok? {
      CollectAgrees(a[1..], b[1..], acc + [a[0].v]);
    }
  }

  lemma {:induction false} LowerEach(ts: seq<Triple>, i: nat)
    requires i < |ts|
    ensures |LowerTriples(ts)| == |ts| && LowerTriples(ts)[i] == LowerTriple(ts[i])
    decreases |ts|
  {
    if i > 0 {
      LowerEach(ts[1..], i - 1);
    } else if |ts| > 1 {
      LowerEach(ts[1..], 0);
    }
  }

  lemma EachAgrees(ts: seq<Triple>, i: nat)
    requires i < |ts|
    ensures |LowerTriples(ts)| == |ts| && Agree(ReadEach(LowerTriples(ts))[i], ReadEach(ts)[i])
  {
    LowerEach(ts, i);
    LowerEntry(ts[i]);
  }

  /** Letter case never matters: not to acceptance, not to the entries read. */
  lemma CaseDoesNotMatter(text: string)
    ensures Parsed(LowerAll(text)).ok == Parsed(text).ok && Parsed(LowerAll(text)).entries == Parsed(text).entries
  {
    LowerTextTriples(text);
    SameWhenAgreed(Triples(text));
  }

  lemma SameWhenAgreed(ts: seq<Triple>)
    ensures var a, b := Collect(ReadEach(LowerTriples(ts)), []), Collect(ReadEach(ts), []);
            a.ok == b.ok && a.entries == b.entries
  {
    if ts != [] {
      LowerEach(ts, 0);
    }
    var a, b := ReadEach(LowerTriples(ts)), ReadEach(ts);
    forall i | 0 <= i < |b|
      ensures |a| == |b| && Agree(a[i], b[i])
    {
      EachAgrees(ts, i);
    }
    CollectAgrees(a, b, []);
  }
}
