/**
 Laws of the schedule text: what is printed reads back as the same schedule, letter
 case does not matter, and how long a buffer the printer needs.
 */
module ScheduleTextLaws {
  import opened Machine
  import opened ScheduleWords
  import opened ScheduleText

  // ---- what is printed reads back -------------------------------------------

  lemma FindIs(w: string, c: char, rest: string)
    requires c !in w && (rest == [] || rest[0] == c)
    ensures Find(w + rest, c) == |w|
    decreases |w|
  {
    if w == [] {
      assert w + rest == rest;
    } else {
      assert (w + rest)[1..] == w[1..] + rest;
      FindIs(w[1..], c, rest);
    }
  }

  function TimeText(m: u16): string {
    [DigitChar(m / 60 / 10), DigitChar(m / 60), ':', DigitChar(m % 60 / 10), DigitChar(m % 60)]
  }

  lemma DigitBack(v: nat)
    ensures IsDigit(DigitChar(v)) && DigitOf(DigitChar(v)) == v % 10 && InWord(DigitChar(v)) && DigitChar(v) != ':'
  {
  }

  lemma NumberOfTwo(v: nat)
    requires v < 100
    ensures Number([DigitChar(v / 10), DigitChar(v)]) == Some(v)
  {
    var s := [DigitChar(v / 10), DigitChar(v)];
    DigitBack(v);
    DigitBack(v / 10);
    assert s[..1] == [DigitChar(v / 10)] && s[..1][..0] == [];
    assert Number(s[..1]) == Some(v / 10) by {
      assert Number(s[..1][..0]) == Some(0);
    }
  }

  lemma TimeBack(m: u16)
    requires m < 1440
    ensures ParseTime(TimeText(m)) == Ok(m) && AllWord(TimeText(m))
  {
    var t := TimeText(m);
    DigitBack(m / 60 / 10);
    DigitBack(m / 60);
    DigitBack(m % 60 / 10);
    DigitBack(m % 60);
    assert t == t[..2] + t[2..];
    FindIs(t[..2], ':', t[2..]);
    NumberOfTwo(m / 60);
    NumberOfTwo(m % 60);
    assert t[..2] == [DigitChar(m / 60 / 10), DigitChar(m / 60)];
    assert t[3..] == [DigitChar(m % 60 / 10), DigitChar(m % 60)];
  }

  /** The days of a mask from day d on, in order. */
  function DaysIn(mask: Days, d: nat): (ds: seq<Day>)
    requires d <= 7
    decreases 7 - d
  {
    if d == 7 then [] else if mask[d] then [d] + DaysIn(mask, d + 1) else DaysIn(mask, d + 1)
  }

  function SetAll(acc: Days, ds: seq<Day>): Days
    decreases |ds|
  {
    if ds == [] then acc else SetAll(acc[ds[0] := true], ds[1..])
  }

  lemma {:induction false} SetAllFrom(acc: Days, mask: Days, d: nat)
    requires d <= 7
    ensures var m := SetAll(acc, DaysIn(mask, d));
            forall i :: 0 <= i < 8 ==> m[i] == (acc[i] || (d <= i < 7 && mask[i]))
    decreases 7 - d
  {
    if d < 7 {
      if mask[d] {
        assert DaysIn(mask, d)[1..] == DaysIn(mask, d + 1);
        SetAllFrom(acc[d := true], mask, d + 1);
      } else {
        SetAllFrom(acc, mask, d + 1);
      }
    }
  }

  lemma DaysMakeTheMask(mask: Days)
    requires SomeDay(mask)
    ensures DaysIn(mask, 0) != [] && SetAll(NoDay(), DaysIn(mask, 0)) == mask
  {
    SetAllFrom(NoDay(), mask, 0);
    assert SetAll(NoDay(), DaysIn(mask, 0)) == mask;
  }

  /** Day names with commas between them, the first with or without one before it. */
  function Names(ds: seq<Day>, first: bool): string
    decreases |ds|
  {
    if ds == [] then "" else (if first then "" else ",") + (Name(ds[0]) + Names(ds[1..], false))
  }

  /** No two days share a name: some letter tells them apart. */
  lemma NamesDiffer(d: Day, e: Day)
    requires d != e
    ensures !TokenIs(Name(d), Name(e))
  {
    assert Name(d)[0] != Name(e)[0] || Name(d)[1] != Name(e)[1];
    assert Lower(Name(d)[0]) == Name(d)[0] && Lower(Name(d)[1]) == Name(d)[1];
  }

  lemma NameBack(d: Day)
    ensures DayBit(Name(d)) == Some(d)
  {
    forall e: Day | e != d
      ensures !TokenIs(Name(d), Name(e))
    {
      NamesDiffer(d, e);
    }
    assert TokenIs(Name(d), Name(d));
    DayBitFinds(Name(d), d);
  }

  /** A token that is some day's name is that day. */
  lemma DayBitFinds(tok: string, d: Day)
    requires TokenIs(tok, Name(d))
    ensures DayBit(tok).Some? && TokenIs(tok, Name(DayBit(tok).value))
  {
  }

  lemma NameLetters(d: Day)
    ensures |Name(d)| == 3 && AllWord(Name(d)) && ',' !in Name(d)
  {
  }

  function NamesOf(ds: seq<Day>): (ns: seq<string>)
    ensures |ns| == |ds| && forall i :: 0 <= i < |ds| ==> ns[i] == Name(ds[i])
  {
    seq(|ds|, i requires 0 <= i < |ds| => Name(ds[i]))
  }

  lemma {:induction false} NamesAreWords(ds: seq<Day>, first: bool)
    ensures AllWord(Names(ds, first))
    decreases |ds|
  {
    if ds != [] {
      NameLetters(ds[0]);
      NamesAreWords(ds[1..], false);
    }
  }

  lemma {:induction false} CommasBack(ds: seq<Day>)
    ensures Commas(Names(ds, true)) == NamesOf(ds)
    decreases |ds|
  {
    if ds != [] {
      var n, rest, more := Name(ds[0]), Names(ds[1..], false), Names(ds[1..], true);
      assert rest == (if more == "" then "" else "," + more);
      assert Names(ds, true) == n + rest;
      FirstComma(n, rest, more, ds[0]);
      CommasBack(ds[1..]);
      assert NamesOf(ds) == [n] + NamesOf(ds[1..]);
    }
  }

  lemma FirstComma(n: string, rest: string, more: string, d: Day)
    requires n == Name(d) && rest == (if more == "" then "" else "," + more)
    ensures Commas(n + rest) == [n] + Commas(more)
  {
    var s := n + rest;
    NameLetters(d);
    FindIs(n, ',', rest);
    assert s[..3] == n;
    assert rest != [] ==> s[4..] == more;
  }

  lemma {:induction false} SetDaysBack(ds: seq<Day>, acc: Days)
    requires !acc[7]
    ensures SetDays(NamesOf(ds), acc) == Ok(SetAll(acc, ds))
    decreases |ds|
  {
    if ds != [] {
      NameBack(ds[0]);
      SetDaysBack(ds[1..], acc[ds[0] := true]);
      assert NamesOf(ds)[1..] == NamesOf(ds[1..]);
    }
  }

  /** What starts with a day's name is none of the three words. */
  lemma NoWord(s: string, d: Day)
    requires |s| >= 3 && s[0] == Name(d)[0] && s[1] == Name(d)[1] && s[2] == Name(d)[2]
    ensures !TokenIs(s, "daily") && !TokenIs(s, "weekdays") && !TokenIs(s, "weekend")
  {
    NotToken(s, "daily", 0);
    NotToken(s, "weekdays", if d == 2 then 2 else 0);
    NotToken(s, "weekend", if d == 2 then 2 else 0);
  }

  lemma {:induction false} NamesArePrinted(mask: Days, d: nat, first: bool)
    requires d <= 7 && (first ==> DaysIn(mask, d) != [])
    ensures Cat(NamePieces(mask, d, first)) == Names(DaysIn(mask, d), first)
    decreases 7 - d
  {
    if d < 7 {
      if !mask[d] {
        NamesArePrinted(mask, d + 1, first);
      } else {
        var rest, sep := NamePieces(mask, d + 1, false), if first then [] else [Put(",")];
        NamesArePrinted(mask, d + 1, false);
        CatAppend(sep + [Put(Name(d))], rest);
        CatAppend(sep, [Put(Name(d))]);
        OnePiece(",");
        OnePiece(Name(d));
        assert DaysIn(mask, d)[1..] == DaysIn(mask, d + 1);
      }
    }
  }

  lemma ListBack(ds: seq<Day>)
    requires ds != []
    ensures var s := Names(ds, true);
            ParseDays(s) == Ok(SetAll(NoDay(), ds)) && s != [] && AllWord(s)
  {
    var s, n := Names(ds, true), Name(ds[0]);
    assert s == n + Names(ds[1..], false);
    assert s[0] == n[0] && s[1] == n[1] && s[2] == n[2];
    NoWord(s, ds[0]);
    CommasBack(ds);
    SetDaysBack(ds, NoDay());
    NamesAreWords(ds, true);
  }

  function DaysText(mask: Days): string {
    if mask == Daily() then "daily"
    else if mask == Weekdays() then "weekdays"
    else if mask == Weekend() then "weekend"
    else Names(DaysIn(mask, 0), true)
  }

  lemma DaysArePrinted(mask: Days)
    requires SomeDay(mask)
    ensures Cat(DayPieces(mask)) == DaysText(mask)
  {
    OnePiece("daily");
    OnePiece("weekdays");
    OnePiece("weekend");
    DaysMakeTheMask(mask);
    NamesArePrinted(mask, 0, true);
  }

  lemma DaysBack(mask: Days)
    requires SomeDay(mask)
    ensures ParseDays(DaysText(mask)) == Ok(mask) && DaysText(mask) != [] && AllWord(DaysText(mask))
  {
    if mask == Daily() {
      DailyBack();
    } else if mask == Weekdays() {
      WeekdaysBack();
    } else if mask == Weekend() {
      WeekendBack();
    } else {
      DaysMakeTheMask(mask);
      ListBack(DaysIn(mask, 0));
    }
  }

  /** A token is not a word it differs from in length or in some letter. */
  lemma NotToken(tok: string, lit: string, i: nat)
    requires |tok| != |lit| || (i < |tok| && Lower(tok[i]) != lit[i])
    ensures !TokenIs(tok, lit)
  {
  }

  lemma DailyBack()
    ensures ParseDays("daily") == Ok(Daily()) && AllWord("daily")
  {
    assert TokenIs("daily", "daily");
  }

  lemma WeekdaysBack()
    ensures ParseDays("weekdays") == Ok(Weekdays()) && AllWord("weekdays")
  {
    NotToken("weekdays", "daily", 0);
    assert TokenIs("weekdays", "weekdays");
  }

  lemma WeekendBack()
    ensures ParseDays("weekend") == Ok(Weekend()) && AllWord("weekend")
  {
    NotToken("weekend", "weekdays", 0);
    NotToken("weekend", "daily", 0);
    assert TokenIs("weekend", "weekend");
  }

  lemma OnePiece(s: string)
    ensures Cat([Put(s)]) == s
  {
  }

  function PercentText(v: nat): string {
    if v >= 100 then "100" else if v >= 10 then [DigitChar(v / 10), DigitChar(v)] else [DigitChar(v)]
  }

  lemma PercentBack(v: nat)
    requires v <= 100
    ensures Percent(PercentText(v), 0) == Some(v) && PercentText(v) != [] && AllWord(PercentText(v))
  {
    DigitBack(v);
    DigitBack(v / 10);
    var s := PercentText(v);
    if v >= 100 {
      assert s[1..] == "00" && s[1..][1..] == "0";
      assert Percent("0", 10) == Percent("", 100);
      assert Percent("00", 1) == Percent("0", 10);
      assert Percent("100", 0) == Percent("00", 1);
    } else if v >= 10 {
      assert s[1..] == [DigitChar(v)];
      assert Percent([DigitChar(v)], v / 10) == Percent([], v);
    } else {
      assert Percent(s, 0) == Percent([], v);
    }
  }

  lemma OpenBack()
    ensures ParseAction("open") == Ok(Act(ACTION_OPEN, 0)) && AllWord("open")
  {
    assert TokenIs("open", "open");
  }

  lemma CloseBack()
    ensures ParseAction("close") == Ok(Act(ACTION_CLOSE, 0)) && AllWord("close")
  {
    NotToken("close", "open", 0);
    assert TokenIs("close", "close");
  }

  lemma StopBack()
    ensures ParseAction("stop") == Ok(Act(ACTION_STOP, 0)) && AllWord("stop")
  {
    NotToken("stop", "open", 0);
    NotToken("stop", "close", 0);
    assert TokenIs("stop", "stop");
  }

  lemma PositionBack(p: string)
    requires p != [] && AllWord(p)
    ensures var s := "position:" + p;
            && Find(s, ':') == 8 && s[..8] == "position" && s[9..] == p
            && !TokenIs(s, "open") && !TokenIs(s, "close") && !TokenIs(s, "stop")
            && AllWord(s)
  {
    var s := "position:" + p;
    assert s == "position" + (":" + p);
    FindIs("position", ':', ":" + p);
    assert s[..8] == "position";
    assert |s| > 9;
  }

  lemma PercentActionBack(v: u8)
    requires v <= 100
    ensures var s := "position:" + PercentText(v);
            ParseAction(s) == Ok(Act(ACTION_POSITION, v)) && s != [] && AllWord(s)
  {
    PercentBack(v);
    PositionBack(PercentText(v));
    assert TokenIs("position", "position");
  }

  function ActionText(action: u8, pct: u8): string {
    if action == ACTION_CLOSE then "close"
    else if action == ACTION_STOP then "stop"
    else if action == ACTION_POSITION then "position:" + PercentText(pct)
    else "open"
  }

  lemma ActionBack(action: u8, pct: u8)
    requires action <= 3 && pct <= 100 && (action != ACTION_POSITION ==> pct == 0)
    ensures var s := ActionText(action, pct);
            ParseAction(s) == Ok(Act(action, pct)) && s != [] && AllWord(s)
  {
    if action == ACTION_POSITION {
      PercentActionBack(pct);
    } else if action == ACTION_CLOSE {
      CloseBack();
    } else if action == ACTION_STOP {
      StopBack();
    } else {
      OpenBack();
    }
  }

  lemma ActionIsPrinted(e: Entry)
    ensures Cat(ActionPieces(e)) == ActionText(e.action, e.positionPct)
  {
    var ps := ActionPieces(e);
    if e.action == ACTION_POSITION {
      assert ps[1..] == [ps[1]] && ps[1..][1..] == [];
      assert Cat(ps[1..]) == PieceText(ps[1]) + Cat([]);
      assert PieceText(ps[1]) + "" == PieceText(ps[1]);
    } else {
      OnePiece("close");
      OnePiece("stop");
      OnePiece("open");
    }
  }

  lemma HeadText(m: u16)
    ensures Cat([Put2(m / 60), Put(":"), Put2(m % 60), Put(" ")]) == TimeText(m) + " "
  {
    var head := [Put2(m / 60), Put(":"), Put2(m % 60), Put(" ")];
    OnePiece(" ");
    assert head[1..] == [Put(":"), Put2(m % 60), Put(" ")];
    assert head[1..][1..] == [Put2(m % 60), Put(" ")];
    assert head[1..][1..][1..] == [Put(" ")];
    assert Cat(head[1..][1..]) == PieceText(Put2(m % 60)) + " ";
    assert Cat(head[1..]) == ":" + (PieceText(Put2(m % 60)) + " ");
    assert Cat(head) == PieceText(Put2(m / 60)) + (":" + (PieceText(Put2(m % 60)) + " "));
  }

  /** The three words an entry is printed as. */
  function TripleOf(e: Entry): Triple {
    Triple(TimeText(e.minuteOfDay), DaysText(e.dayMask), ActionText(e.action, e.positionPct))
  }

  lemma CatOfFour(head: seq<Piece>, days: seq<Piece>, act: seq<Piece>)
    ensures Cat(head + (days + ([Put(" ")] + act))) == Cat(head) + (Cat(days) + (" " + Cat(act)))
  {
    CatAppend(head, days + ([Put(" ")] + act));
    CatAppend(days, [Put(" ")] + act);
    CatAppend([Put(" ")], act);
    OnePiece(" ");
  }

  lemma Reassociate(a: string, b: string, c: string)
    ensures (a + b) + c == a + (b + c)
  {
  }

  lemma EntryIsSpelled(e: Entry)
    requires Accepted(e)
    ensures Cat(EntryPieces(e)) == Spelled(TripleOf(e))
  {
    var days, act := DaysText(e.dayMask), ActionText(e.action, e.positionPct);
    CatOfFour([Put2(e.minuteOfDay / 60), Put(":"), Put2(e.minuteOfDay % 60), Put(" ")],
              DayPieces(e.dayMask), ActionPieces(e));
    HeadText(e.minuteOfDay);
    DaysArePrinted(e.dayMask);
    ActionIsPrinted(e);
    Reassociate(TimeText(e.minuteOfDay), " ", days + (" " + act));
  }

  lemma EntryBack(e: Entry)
    requires Accepted(e)
    ensures ReadEntry(TripleOf(e)) == Ok(e) && Whole(TripleOf(e))
  {
    TimeBack(e.minuteOfDay);
    DaysBack(e.dayMask);
    ActionBack(e.action, e.positionPct);
  }

  function TriplesOf(es: seq<Entry>): (ts: seq<Triple>)
    ensures |ts| == |es| && forall i :: 0 <= i < |es| ==> ts[i] == TripleOf(es[i])
  {
    seq(|es|, i requires 0 <= i < |es| => TripleOf(es[i]))
  }

  lemma FirstText(sep: seq<Piece>, entry: seq<Piece>, rest: seq<Piece>)
    ensures Cat(sep + (entry + rest)) == Cat(sep) + (Cat(entry) + Cat(rest))
  {
    CatAppend(sep, entry + rest);
    CatAppend(entry, rest);
  }

  lemma {:induction false} TextIsJoined(es: seq<Entry>, first: bool)
    requires forall i :: 0 <= i < |es| ==> Accepted(es[i])
    ensures Cat(Pieces(es, first)) == Joined(TriplesOf(es), first)
    decreases |es|
  {
    if es != [] {
      FirstText(if first then [] else [Put("; ")], EntryPieces(es[0]), Pieces(es[1..], false));
      OnePiece("; ");
      EntryIsSpelled(es[0]);
      TextIsJoined(es[1..], false);
      assert TriplesOf(es)[1..] == TriplesOf(es[1..]);
    }
  }

  lemma {:induction false} CollectAll(rs: seq<Res<Entry>>, es: seq<Entry>, acc: seq<Entry>)
    requires |rs| == |es| && |acc| + |es| <= MAX_ENTRIES
    requires forall i :: 0 <= i < |es| ==> rs[i] == Ok(es[i])
    ensures Collect(rs, acc) == ParseResult(true, acc + es, "")
    decreases |es|
  {
    if es == [] {
      assert acc + es == acc;
    } else {
      CollectAll(rs[1..], es[1..], acc + [es[0]]);
      assert acc + [es[0]] + es[1..] == acc + es;
    }
  }

  /** A schedule the parser can produce: at most eight well-formed entries. */
  predicate WellFormed(es: seq<Entry>) {
    |es| <= MAX_ENTRIES && forall i :: 0 <= i < |es| ==> Accepted(es[i])
  }

  /** Printing and reading back gives the same schedule. */
  lemma PrintThenParse(es: seq<Entry>)
    requires WellFormed(es)
    ensures Parsed(Text(es)) == ParseResult(true, es, "")
  {
    forall i | 0 <= i < |es|
      ensures Whole(TriplesOf(es)[i]) && ReadEntry(TriplesOf(es)[i]) == Ok(es[i])
    {
      EntryBack(es[i]);
    }
    TextIsJoined(es, true);
    TriplesBack(TriplesOf(es), true);
    CollectAll(ReadEach(TriplesOf(es)), es, []);
    assert [] + es == es;
  }

  lemma {:induction false} CollectedIsWellFormed(rs: seq<Res<Entry>>, acc: seq<Entry>)
    requires WellFormed(acc) && forall i :: 0 <= i < |rs| && rs[i].Ok? ==> Accepted(rs[i].v)
    ensures var r := Collect(rs, acc);
            WellFormed(r.entries) && (r.ok <==> r.error == "") && (!r.ok ==> r.entries == [])
    decreases |rs|
  {
    if rs != [] && |acc| < MAX_ENTRIES && rs[0].Ok? {
      CollectedIsWellFormed(rs[1..], acc + [rs[0].v]);
    }
  }

  /** Every text: accepted with at most eight well-formed entries, which survive being
      printed and read again, or rejected with a reason and no entry at all. */
  lemma ParsePrintParse(text: string)
    ensures var r := Parsed(text);
            && WellFormed(r.entries) && (r.ok <==> r.error == "") && (!r.ok ==> r.entries == [])
            && (r.ok ==> Parsed(Text(r.entries)) == r)
  {
    CollectedIsWellFormed(ReadEach(Triples(text)), []);
    PrintThenParse(Parsed(text).entries);
  }

}
