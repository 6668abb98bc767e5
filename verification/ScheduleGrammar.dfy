/**
 Which schedule texts are accepted, and with what meaning (ScheduleText.h): a grammar of
 digits, names and percentages that does not mention the parser, the parser's equality
 with it, and where both go beyond the grammar the header documents.
 */
module ScheduleGrammar {
  import opened Machine
  import opened ScheduleWords
  import opened ScheduleText
  import opened ScheduleTextLaws
  import opened ScheduleTextRoom

  // ---- decimal numbers ------------------------------------------------------

  predicate AllDigits(s: string) {
    forall i :: 0 <= i < |s| ==> IsDigit(s[i])
  }

  function Pow10(n: nat): (p: nat)
    ensures p > 0
  {
    if n == 0 then 1 else 10 * Pow10(n - 1)
  }

  /** The positional value of a digit string, 0 for the empty one. */
  function Value(s: string): nat
    requires AllDigits(s)
    decreases |s|
  {
    if s == [] then 0 else DigitOf(s[0]) * Pow10(|s| - 1) + Value(s[1..])
  }

  lemma TimesTen(d: nat, p: nat, v: nat)
    ensures (d * p + v) * 10 == d * (10 * p) + v * 10
  {
  }

  lemma {:induction false} ValueAppend(s: string, c: char)
    requires AllDigits(s) && IsDigit(c)
    ensures AllDigits(s + [c]) && Value(s + [c]) == Value(s) * 10 + DigitOf(c)
    decreases |s|
  {
    if s == [] {
      assert ([c])[1..] == [];
      assert s + [c] == [c] && Pow10(0) == 1;
    } else {
      assert (s + [c])[1..] == s[1..] + [c];
      ValueAppend(s[1..], c);
      TimesTen(DigitOf(s[0]), Pow10(|s| - 1), Value(s[1..]));
    }
  }

  /** The digit loop computes the positional value, of digits only. */
  lemma {:induction false} NumberIsValue(s: string)
    ensures Number(s) == if AllDigits(s) then Some(Value(s)) else None
    decreases |s|
  {
    if s != [] {
      var a, c := s[..|s| - 1], s[|s| - 1];
      assert s == a + [c];
      NumberIsValue(a);
      if AllDigits(a) && IsDigit(c) {
        ValueAppend(a, c);
      }
    }
  }

  // ---- the time word --------------------------------------------------------

  predicate TimeParts(tok: string, h: string, m: string, minute: int) {
    && tok == h + (":" + m) && AllDigits(h) && AllDigits(m)
    && Value(h) <= 23 && Value(m) <= 59 && minute == Value(h) * 60 + Value(m)
  }

  /** Three or four digits around a colon, hour and minute of any width, the empty one
      included, below 24 and 60. */
  ghost predicate SpellsTime(tok: string, minute: int) {
    4 <= |tok| <= 5 && exists h, m :: TimeParts(tok, h, m, minute)
  }

  lemma {:induction false} FindAt(s: string, c: char)
    ensures Find(s, c) < |s| ==> s == s[..Find(s, c)] + ([c] + s[Find(s, c) + 1..])
    ensures c !in s[..Find(s, c)]
    decreases |s|
  {
    if s != [] && s[0] != c {
      FindAt(s[1..], c);
      var k := Find(s[1..], c);
      assert s[..k + 1] == [s[0]] + s[1..][..k];
      if k < |s| - 1 {
        assert s[1..][k] == c;
      }
    }
  }

  lemma DigitsHaveNoColon(s: string)
    requires AllDigits(s)
    ensures ':' !in s && AllWord(s)
  {
  }

  lemma TimeIff(tok: string, minute: u16)
    ensures ParseTime(tok) == Ok(minute) <==> SpellsTime(tok, minute)
  {
    var c := Find(tok, ':');
    FindAt(tok, ':');
    if 4 <= |tok| <= 5 && c < |tok| {
      NumberIsValue(tok[..c]);
      NumberIsValue(tok[c + 1..]);
      assert ParseTime(tok) == Ok(minute) ==> TimeParts(tok, tok[..c], tok[c + 1..], minute);
    }
    forall h, m | TimeParts(tok, h, m, minute)
      ensures c == |h| && tok[..c] == h && tok[c + 1..] == m
    {
      DigitsHaveNoColon(h);
      FindIs(h, ':', ":" + m);
    }
  }

  // ---- the days word --------------------------------------------------------

  /** The token is this word, in whatever letter case. */
  predicate Says(tok: string, lit: string) {
    LowerAll(tok) == lit
  }

  lemma SaysIff(tok: string, lit: string)
    ensures TokenIs(tok, lit) <==> Says(tok, lit)
  {
  }

  function MaskOf(ds: seq<Day>): Days {
    seq(8, i requires 0 <= i < 8 => i < 7 && i in ds)
  }

  /** Day names with commas between them and perhaps one more behind. */
  predicate DayList(tok: string, ds: seq<Day>, trailing: bool) {
    ds != [] && LowerAll(tok) == Names(ds, true) + (if trailing then "," else "")
  }

  ghost predicate SpellsDays(tok: string, mask: Days) {
    || (Says(tok, "daily") && mask == Daily())
    || (Says(tok, "weekdays") && mask == Weekdays())
    || (Says(tok, "weekend") && mask == Weekend())
    || (exists ds, trailing :: DayList(tok, ds, trailing) && mask == MaskOf(ds))
  }

  lemma {:induction false} SetAllIs(acc: Days, ds: seq<Day>, i: nat)
    requires i < 8
    ensures SetAll(acc, ds)[i] == (acc[i] || (i < 7 && i in ds))
    decreases |ds|
  {
    if ds != [] {
      SetAllIs(acc[ds[0] := true], ds[1..], i);
      assert i in ds <==> i == ds[0] || i in ds[1..];
    }
  }

  lemma MaskIsSetAll(ds: seq<Day>)
    ensures SetAll(NoDay(), ds) == MaskOf(ds)
  {
    forall i | 0 <= i < 8
      ensures SetAll(NoDay(), ds)[i] == MaskOf(ds)[i]
    {
      SetAllIs(NoDay(), ds, i);
    }
  }

  lemma SameToken(tok: string, lit: string)
    requires LowerAll(tok) == tok && TokenIs(tok, lit)
    ensures tok == lit
  {
  }

  lemma MoreNames(d: Day, ds: seq<Day>)
    ensures Names([d] + ds, true) == Name(d) + (if ds == [] then "" else "," + Names(ds, true))
  {
    assert ([d] + ds)[1..] == ds;
    assert "" + (Name(d) + Names(ds, false)) == Name(d) + Names(ds, false);
  }

  lemma FirstOfList(s: string, c: nat, more: string, mask: Days) returns (d: Day)
    requires s != [] && LowerAll(s) == s && !mask[7] && SetDays(Commas(s), mask).Ok?
    requires c == Find(s, ',') && more == (if c < |s| then s[c + 1..] else [])
    ensures s == Name(d) + (if c < |s| then "," + more else "") && LowerAll(more) == more
    ensures SetDays(Commas(s), mask) == SetDays(Commas(more), mask[d := true])
  {
    FindAt(s, ',');
    LowerTail(s, c);
    SetFirst(s, c, more, mask);
    d := DayBit(s[..c]).value;
    NamedDay(s[..c]);
    SameToken(s[..c], Name(d));
    if c < |s| {
      LowerTail(s, c + 1);
    } else {
      assert s[..c] == s && Name(d) + "" == Name(d);
    }
  }

  /** An accepted list of names, read back as days. */
  lemma {:induction false} ListIsNames(s: string, mask: Days) returns (ds: seq<Day>, trailing: bool)
    requires s != [] && LowerAll(s) == s && !mask[7] && SetDays(Commas(s), mask).Ok?
    ensures ds != [] && s == Names(ds, true) + (if trailing then "," else "")
    ensures SetDays(Commas(s), mask) == Ok(SetAll(mask, ds))
    decreases |s|
  {
    var c := Find(s, ',');
    var more := if c < |s| then s[c + 1..] else [];
    var d := FirstOfList(s, c, more, mask);
    if more == [] {
      ds, trailing := [d], c < |s|;
      OneName(d);
    } else {
      var rest;
      rest, trailing := ListIsNames(more, mask[d := true]);
      ds := [d] + rest;
      OneMoreName(s, d, more, rest, trailing, mask);
    }
  }

  lemma OneMoreName(s: string, d: Day, more: string, rest: seq<Day>, trailing: bool, mask: Days)
    requires rest != [] && s == Name(d) + ("," + more) && more == Names(rest, true) + (if trailing then "," else "")
    ensures s == Names([d] + rest, true) + (if trailing then "," else "")
    ensures SetAll(mask, [d] + rest) == SetAll(mask[d := true], rest)
  {
    MoreNames(d, rest);
    assert ([d] + rest)[1..] == rest;
  }

  lemma OneName(d: Day)
    ensures Names([d], true) == Name(d) && forall mask: Days :: SetAll(mask, [d]) == mask[d := true]
  {
    MoreNames(d, []);
    assert [d] + [] == [d] && [d][1..] == [];
  }

  lemma NamedDay(tok: string)
    ensures DayBit(tok).Some? ==> TokenIs(tok, Name(DayBit(tok).value))
  {
  }

  /** A comma behind the last name changes nothing. */
  lemma {:induction false} TrailingComma(ds: seq<Day>)
    requires ds != []
    ensures Commas(Names(ds, true) + ",") == Commas(Names(ds, true))
    decreases |ds|
  {
    var d, rest := ds[0], ds[1..];
    assert ds == [d] + rest;
    MoreNames(d, rest);
    NameLetters(d);
    if rest == [] {
      assert Names(ds, true) == Name(d);
      FirstName(Name(d), ",", []);
      FirstName(Name(d), "", []);
      assert Name(d) + "" == Name(d);
    } else {
      var more := Names(rest, true);
      assert Names(ds, true) + "," == Name(d) + ("," + (more + ","));
      FirstName(Name(d), "," + (more + ","), more + ",");
      FirstName(Name(d), "," + more, more);
      TrailingComma(rest);
    }
  }

  lemma FirstName(n: string, tail: string, more: string)
    requires n != [] && ',' !in n && (tail == "" ==> more == []) && (tail != "" ==> tail == "," + more)
    ensures Commas(n + tail) == [n] + Commas(more)
  {
    FindIs(n, ',', tail);
    assert (n + tail)[..|n|] == n;
    assert tail != "" ==> (n + tail)[|n| + 1..] == more;
  }

  lemma ListReadsBack(s: string, ds: seq<Day>, trailing: bool)
    requires ds != [] && s == Names(ds, true) + (if trailing then "," else "")
    ensures SetDays(Commas(s), NoDay()) == Ok(MaskOf(ds))
  {
    CommasBack(ds);
    TrailingComma(ds);
    SetDaysBack(ds, NoDay());
    MaskIsSetAll(ds);
    assert Names(ds, true) + "" == Names(ds, true);
  }

  lemma ListStartsWithName(s: string, ds: seq<Day>, trailing: bool)
    requires ds != [] && s == Names(ds, true) + (if trailing then "," else "")
    ensures !TokenIs(s, "daily") && !TokenIs(s, "weekdays") && !TokenIs(s, "weekend") && s != []
  {
    var n := Name(ds[0]);
    assert ds == [ds[0]] + ds[1..];
    MoreNames(ds[0], ds[1..]);
    assert s[0] == n[0] && s[1] == n[1] && s[2] == n[2];
    NoWord(s, ds[0]);
  }

  /** The comma list, exactly. */
  lemma DayListIff(tok: string, mask: Days)
    requires tok != []
    ensures SetDays(Commas(tok), NoDay()) == Ok(mask)
            <==> exists ds, trailing :: DayList(tok, ds, trailing) && mask == MaskOf(ds)
  {
    var low := LowerAll(tok);
    LowerDayList(tok, NoDay());
    assert LowerAll(low) == low;
    if SetDays(Commas(low), NoDay()).Ok? {
      var ds, trailing := ListIsNames(low, NoDay());
      MaskIsSetAll(ds);
      assert DayList(tok, ds, trailing);
    }
    forall ds, trailing | DayList(tok, ds, trailing)
      ensures SetDays(Commas(low), NoDay()) == Ok(MaskOf(ds))
    {
      ListReadsBack(low, ds, trailing);
    }
  }

  lemma DaysIff(tok: string, mask: Days)
    requires tok != []
    ensures ParseDays(tok) == Ok(mask) <==> SpellsDays(tok, mask)
  {
    SaysIff(tok, "daily");
    SaysIff(tok, "weekdays");
    SaysIff(tok, "weekend");
    DayListIff(tok, mask);
    forall ds, trailing | DayList(tok, ds, trailing)
      ensures !TokenIs(tok, "daily") && !TokenIs(tok, "weekdays") && !TokenIs(tok, "weekend")
    {
      ListStartsWithName(LowerAll(tok), ds, trailing);
      LowerToken(tok, "daily");
      LowerToken(tok, "weekdays");
      LowerToken(tok, "weekend");
    }
    WordsDiffer();
  }

  lemma WordsDiffer()
    ensures "daily" != "weekdays" && "daily" != "weekend" && "weekdays" != "weekend"
  {
    assert |"daily"| == 5 && |"weekdays"| == 8 && |"weekend"| == 7;
  }

  // ---- the action word ------------------------------------------------------

  predicate PositionParts(tok: string, p: string, pct: int) {
    LowerAll(tok) == "position:" + p && p != [] && AllDigits(p) && pct == Value(p) <= 100
  }

  ghost predicate SpellsAction(tok: string, action: int, pct: int) {
    || (Says(tok, "open") && action == ACTION_OPEN && pct == 0)
    || (Says(tok, "close") && action == ACTION_CLOSE && pct == 0)
    || (Says(tok, "stop") && action == ACTION_STOP && pct == 0)
    || (action == ACTION_POSITION && exists p :: PositionParts(tok, p, pct))
  }

  lemma Shift(v: nat, d: nat, p: nat)
    ensures v * (10 * p) + d * p == (v * 10 + d) * p
  {
  }

  lemma AtLeastOnce(v: nat, p: nat)
    requires p > 0
    ensures v * p >= v
  {
  }

  /** Reading digits until they pass 100: a value of at most 100 is the positional one. */
  lemma {:induction false} PercentIff(s: string, v: nat, x: nat)
    requires x <= 100
    ensures Percent(s, v) == Some(x) <==> AllDigits(s) && v * Pow10(|s|) + Value(s) == x
    decreases |s|
  {
    if s == [] {
      assert Pow10(0) == 1;
    } else if IsDigit(s[0]) {
      var d := DigitOf(s[0]);
      PercentIff(s[1..], v * 10 + d, x);
      Shift(v, d, Pow10(|s| - 1));
      AtLeastOnce(v, Pow10(|s|));
      assert AllDigits(s[1..]) ==> AllDigits(s);
    }
  }

  lemma ReadPosition(low: string, pct: u8) returns (p: string)
    requires LowerAll(low) == low && ParseAction(low) == Ok(Act(ACTION_POSITION, pct))
    ensures PositionParts(low, p, pct)
  {
    var c := Find(low, ':');
    FindAt(low, ':');
    LowerTail(low, c);
    SameToken(low[..c], "position");
    p := low[c + 1..];
    PercentIff(p, 0, pct);
    assert low == "position" + (":" + p) == "position:" + p;
  }

  lemma PositionIsRead(low: string, p: string, pct: u8)
    requires LowerAll(low) == low && PositionParts(low, p, pct)
    ensures ParseAction(low) == Ok(Act(ACTION_POSITION, pct))
  {
    DigitsHaveNoColon(p);
    PositionBack(p);
    PercentIff(p, 0, pct);
    assert TokenIs("position", "position");
  }

  lemma LowAction(low: string, pct: u8)
    requires LowerAll(low) == low
    ensures ParseAction(low) == Ok(Act(ACTION_POSITION, pct)) <==> exists p :: PositionParts(low, p, pct)
  {
    if ParseAction(low) == Ok(Act(ACTION_POSITION, pct)) {
      var p := ReadPosition(low, pct);
    }
    forall p | PositionParts(low, p, pct)
      ensures ParseAction(low) == Ok(Act(ACTION_POSITION, pct))
    {
      PositionIsRead(low, p, pct);
    }
  }

  lemma LowPlainAction(low: string, action: u8, pct: u8)
    requires LowerAll(low) == low && action != ACTION_POSITION
    ensures ParseAction(low) == Ok(Act(action, pct)) <==> SpellsAction(low, action, pct)
  {
    SaysIff(low, "open");
    SaysIff(low, "close");
    SaysIff(low, "stop");
    if low == "close" {
      CloseBack();
    } else if low == "stop" {
      StopBack();
    }
  }

  lemma ActionIff(tok: string, action: u8, pct: u8)
    ensures ParseAction(tok) == Ok(Act(action, pct)) <==> SpellsAction(tok, action, pct)
  {
    var low := LowerAll(tok);
    LowerAction(tok);
    assert LowerAll(low) == low;
    if action == ACTION_POSITION {
      LowAction(low, pct);
      assert forall p :: PositionParts(low, p, pct) <==> PositionParts(tok, p, pct);
    } else {
      LowPlainAction(low, action, pct);
    }
  }

  // ---- entries and texts ----------------------------------------------------

  /** The three words of an entry spell exactly this entry. */
  ghost predicate Spells(t: Triple, e: Entry) {
    SpellsTime(t.time, e.minuteOfDay) && SpellsDays(t.days, e.dayMask)
        && SpellsAction(t.action, e.action, e.positionPct)
  }

  lemma NeverEmpty(tok: string, mask: Days, action: int, pct: int)
    ensures SpellsDays(tok, mask) ==> tok != []
    ensures SpellsAction(tok, action, pct) ==> tok != []
  {
    forall ds, trailing | DayList(tok, ds, trailing)
      ensures tok != []
    {
      ListStartsWithName(LowerAll(tok), ds, trailing);
    }
  }

  /** Reading an entry is reading what it spells, and nothing else. */
  lemma EntryIff(t: Triple, e: Entry)
    ensures ReadEntry(t) == Ok(e) <==> Spells(t, e)
  {
    NeverEmpty(t.days, e.dayMask, 0, 0);
    NeverEmpty(t.action, NoDay(), e.action, e.positionPct);
    TimeIff(t.time, e.minuteOfDay);
    if t.days != [] {
      DaysIff(t.days, e.dayMask);
    }
    ActionIff(t.action, e.action, e.positionPct);
  }

  /** Entries are collected if and only if each was read and they are at most eight. */
  lemma {:induction false} CollectIff(rs: seq<Res<Entry>>, acc: seq<Entry>, es: seq<Entry>)
    requires |acc| <= MAX_ENTRIES
    ensures Collect(rs, acc).ok <==> |acc| + |rs| <= MAX_ENTRIES && forall i :: 0 <= i < |rs| ==> rs[i].Ok?
    ensures Collect(rs, acc) == ParseResult(true, acc + es, "")
       <==> |acc| + |rs| <= MAX_ENTRIES && |rs| == |es| && forall i :: 0 <= i < |rs| ==> rs[i] == Ok(es[i])
    decreases |rs|
  {
    if rs == [] {
      assert acc + es == acc <==> |es| == 0;
    } else if |acc| < MAX_ENTRIES && rs[0].Ok? {
      CollectIff(rs[1..], acc + [rs[0].v], if es == [] then [] else es[1..]);
      if es == [] {
        CollectKeeps(rs[1..], acc + [rs[0].v]);
      } else if rs[0].v == es[0] {
        assert acc + [rs[0].v] + es[1..] == acc + es;
      } else {
        CollectKeeps(rs[1..], acc + [rs[0].v]);
        assert (acc + es)[|acc|] == es[0];
      }
    }
  }

  lemma {:induction false} CollectKeeps(rs: seq<Res<Entry>>, acc: seq<Entry>)
    ensures Collect(rs, acc).ok ==> acc <= Collect(rs, acc).entries
    decreases |rs|
  {
    if rs != [] && rs[0].Ok? {
      CollectKeeps(rs[1..], acc + [rs[0].v]);
    }
  }

  /** Exactly what a text means: every schedule it is accepted as, and no other. */
  lemma MeaningIff(text: string, ts: seq<Triple>, es: seq<Entry>)
    requires ts == Triples(text)
    ensures Parsed(text) == ParseResult(true, es, "")
       <==> |ts| == |es| <= MAX_ENTRIES && forall i :: 0 <= i < |es| ==> Spells(ts[i], es[i])
  {
    var rs := ReadEach(ts);
    CollectIff(rs, [], es);
    assert [] + es == es;
    forall i | 0 <= i < |ts| && i < |es|
      ensures rs[i] == Ok(es[i]) <==> Spells(ts[i], es[i])
    {
      EntryIff(ts[i], es[i]);
    }
  }

  ghost predicate Readable(t: Triple) {
    exists e :: Spells(t, e)
  }

  lemma ReadableIff(t: Triple)
    ensures ReadEntry(t).Ok? <==> Readable(t)
  {
    if ReadEntry(t).Ok? {
      EntryIff(t, ReadEntry(t).v);
    }
    forall e | Spells(t, e)
      ensures ReadEntry(t).Ok?
    {
      EntryIff(t, e);
    }
  }

  lemma EachReadable(ts: seq<Triple>)
    ensures (forall i :: 0 <= i < |ts| ==> ReadEach(ts)[i].Ok?) <==> forall i :: 0 <= i < |ts| ==> Readable(ts[i])
  {
    forall i | 0 <= i < |ts|
      ensures ReadEach(ts)[i].Ok? <==> Readable(ts[i])
    {
      ReadableIff(ts[i]);
    }
  }

  /** Exactly which texts are accepted. */
  lemma AcceptedIff(text: string, ts: seq<Triple>)
    requires ts == Triples(text)
    ensures Parsed(text).ok <==> |ts| <= MAX_ENTRIES && forall i :: 0 <= i < |ts| ==> Readable(ts[i])
  {
    CollectIff(ReadEach(ts), [], []);
    EachReadable(ts);
  }

  // ---- the documented grammar -----------------------------------------------

  ghost predicate DocumentedTime(tok: string) {
    exists h, m, minute :: TimeParts(tok, h, m, minute) && |h| == 2 && |m| == 2
  }

  ghost predicate DocumentedDays(tok: string) {
    Says(tok, "daily") || Says(tok, "weekdays") || Says(tok, "weekend") || exists ds :: DayList(tok, ds, false)
  }

  /** HH:MM, a word or names between commas, an action: the header's grammar of an entry. */
  ghost predicate Documented(t: Triple) {
    DocumentedTime(t.time) && DocumentedDays(t.days) && exists action, pct :: SpellsAction(t.action, action, pct)
  }

  lemma {:induction false} NamesEnd(ds: seq<Day>, first: bool)
    requires ds != []
    ensures var s := Names(ds, first); s != [] && s[|s| - 1] == Name(ds[|ds| - 1])[2]
    decreases |ds|
  {
    if |ds| > 1 {
      NamesEnd(ds[1..], false);
    } else {
      assert ds[1..] == [];
    }
  }

  lemma TrailingIff(tok: string, ds: seq<Day>, trailing: bool)
    requires DayList(tok, ds, trailing)
    ensures tok != [] && (tok[|tok| - 1] == ',' <==> trailing)
  {
    var low := LowerAll(tok);
    NamesEnd(ds, true);
    NameLetters(ds[|ds| - 1]);
    assert trailing || low == Names(ds, true);
    assert low[|tok| - 1] == Lower(tok[|tok| - 1]);
  }

  lemma DocumentedTimeIff(tok: string, minute: int)
    requires SpellsTime(tok, minute)
    ensures DocumentedTime(tok) <==> |tok| == 5 && tok[2] == ':'
  {
    var h, m :| TimeParts(tok, h, m, minute);
    if |tok| == 5 && tok[2] == ':' {
      ColonAt(tok, h, m, minute, 2);
    }
  }

  lemma ColonAt(tok: string, h: string, m: string, minute: int, k: nat)
    requires TimeParts(tok, h, m, minute) && k < |tok|
    ensures tok[k] == ':' <==> k == |h|
  {
    assert tok[k] == if k < |h| then h[k] else (":" + m)[k - |h|];
  }

  lemma DocumentedDaysIff(tok: string, mask: Days)
    requires SpellsDays(tok, mask) && tok != []
    ensures DocumentedDays(tok) <==> tok[|tok| - 1] != ','
  {
    forall ds, trailing | DayList(tok, ds, trailing)
      ensures tok[|tok| - 1] == ',' <==> trailing
    {
      TrailingIff(tok, ds, trailing);
    }
    assert LowerAll(tok)[|tok| - 1] == Lower(tok[|tok| - 1]);
  }

  /** An accepted entry is one the header documents exactly when its time is two digits,
      a colon and two digits, and its day list does not end in a comma. */
  lemma DocumentedIff(t: Triple, e: Entry)
    requires Spells(t, e)
    ensures t.days != []
    ensures Documented(t) <==> |t.time| == 5 && t.time[2] == ':' && t.days[|t.days| - 1] != ','
  {
    NeverEmpty(t.days, e.dayMask, 0, 0);
    DocumentedTimeIff(t.time, e.minuteOfDay);
    DocumentedDaysIff(t.days, e.dayMask);
  }

  /** Every documented entry is accepted. */
  lemma DocumentedIsReadable(t: Triple)
    requires Documented(t)
    ensures Readable(t)
  {
    var h, m, minute :| TimeParts(t.time, h, m, minute) && |h| == 2 && |m| == 2;
    assert |t.time| == 5;
    var action, pct :| SpellsAction(t.action, action, pct);
    var mask := DocumentedMask(t.days);
    assert Spells(t, Entry(minute, mask, action, pct));
  }

  lemma DocumentedMask(tok: string) returns (mask: Days)
    requires DocumentedDays(tok)
    ensures SpellsDays(tok, mask)
  {
    if Says(tok, "daily") {
      mask := Daily();
    } else if Says(tok, "weekdays") {
      mask := Weekdays();
    } else if Says(tok, "weekend") {
      mask := Weekend();
    } else {
      var ds :| DayList(tok, ds, false);
      mask := MaskOf(ds);
    }
  }

  // ---- what stands between entries ------------------------------------------

  predicate Separates(s: string) {
    forall i :: 0 <= i < |s| ==> !InWord(s[i])
  }

  /** Entries, each with whatever stands behind it: blanks and semicolons, at least one
      of them before another entry. */
  function Woven(ts: seq<Triple>, seps: seq<string>): string
    requires |ts| == |seps|
    decreases |ts|
  {
    if ts == [] then "" else Spelled(ts[0]) + (seps[0] + Woven(ts[1..], seps[1..]))
  }

  ghost predicate Apart(seps: seq<string>) {
    (forall i :: 0 <= i < |seps| ==> Separates(seps[i])) && forall i :: 0 <= i < |seps| - 1 ==> seps[i] != []
  }

  lemma {:induction false} SkipAll(sep: string, s: string)
    requires Separates(sep)
    ensures SkipSeparators(sep + s) == SkipSeparators(s) && Triples(sep + s) == Triples(s)
    decreases |sep|
  {
    if sep == [] {
      assert sep + s == s;
    } else {
      assert (sep + s)[1..] == sep[1..] + s;
      SkipAll(sep[1..], s);
    }
  }

  /** A semicolon is not needed and may be repeated: any blanks and semicolons will do. */
  lemma {:induction false} AnySeparators(lead: string, ts: seq<Triple>, seps: seq<string>)
    requires |ts| == |seps| && Separates(lead) && Apart(seps) && forall i :: 0 <= i < |ts| ==> Whole(ts[i])
    ensures Triples(lead + Woven(ts, seps)) == ts
    decreases |ts|
  {
    SkipAll(lead, Woven(ts, seps));
    if ts != [] {
      AnySeparators(seps[0], ts[1..], seps[1..]);
      WovenEnds(ts, seps);
      OneTriple(ts[0], seps[0] + Woven(ts[1..], seps[1..]));
      assert ts == [ts[0]] + ts[1..];
    }
  }

  lemma WovenEnds(ts: seq<Triple>, seps: seq<string>)
    requires ts != [] && |ts| == |seps| && Apart(seps)
    ensures Ends(seps[0] + Woven(ts[1..], seps[1..]))
  {
    if seps[0] == [] {
      assert |ts| == 1 && ts[1..] == [];
    }
  }

  lemma OneTriple(t: Triple, rest: string)
    requires Whole(t) && Ends(rest)
    ensures Triples(Spelled(t) + rest) == [t] + Triples(rest)
  {
    TripleBack(t, rest);
    assert SkipSeparators(Spelled(t) + rest) == Spelled(t) + rest;
  }

  /** So a text of up to eight entries between any separators is accepted exactly when
      every entry is readable by itself. */
  lemma WovenAcceptedIff(lead: string, ts: seq<Triple>, seps: seq<string>)
    requires |ts| == |seps| <= MAX_ENTRIES && Separates(lead) && Apart(seps)
    requires forall i :: 0 <= i < |ts| ==> Whole(ts[i])
    ensures Parsed(lead + Woven(ts, seps)).ok <==> forall i :: 0 <= i < |ts| ==> Readable(ts[i])
  {
    AnySeparators(lead, ts, seps);
    AcceptedIff(lead + Woven(ts, seps), ts);
  }

  // ---- inputs outside the documented grammar --------------------------------

  function OpenDaily(time: string): Triple {
    Triple(time, "daily", "open")
  }

  lemma DailyIsSpelled()
    ensures SpellsDays("daily", Daily()) && AllWord("daily")
  {
    assert LowerAll("daily") == "daily";
    assert Says("daily", "daily");
  }

  lemma OpenIsSpelled()
    ensures SpellsAction("open", ACTION_OPEN, 0) && AllWord("open")
  {
    assert LowerAll("open") == "open";
    assert Says("open", "open");
  }

  lemma ReadsOpenDaily(time: string, h: string, m: string, minute: u16)
    requires 4 <= |time| <= 5 && TimeParts(time, h, m, minute)
    ensures ReadEntry(OpenDaily(time)) == Ok(Entry(minute, Daily(), ACTION_OPEN, 0))
    ensures Documented(OpenDaily(time)) <==> |time| == 5 && time[2] == ':'
  {
    var t, e := OpenDaily(time), Entry(minute, Daily(), ACTION_OPEN, 0);
    DailyIsSpelled();
    OpenIsSpelled();
    assert Spells(t, e);
    EntryIff(t, e);
    DocumentedIff(t, e);
  }

  /** An empty hour with a three-digit minute, and an empty minute after a three-digit
      hour, are accepted and not documented. */
  lemma EmptyHourAndMinute()
    ensures ReadEntry(OpenDaily(":059")) == Ok(Entry(59, Daily(), ACTION_OPEN, 0)) && !Documented(OpenDaily(":059"))
    ensures ReadEntry(OpenDaily("012:")) == Ok(Entry(720, Daily(), ACTION_OPEN, 0)) && !Documented(OpenDaily("012:"))
  {
    ThreeDigits("059");
    ThreeDigits("012");
    assert ":059" == "" + (":" + "059") && "012:" == "012" + (":" + "");
    ReadsOpenDaily(":059", "", "059", 59);
    ReadsOpenDaily("012:", "012", "", 720);
  }

  lemma ThreeDigits(s: string)
    requires |s| == 3 && AllDigits(s)
    ensures Value(s) == DigitOf(s[0]) * 100 + DigitOf(s[1]) * 10 + DigitOf(s[2])
  {
    assert Pow10(0) == 1 && Pow10(1) == 10 && Pow10(2) == 100;
    assert s[1..][1..] == [s[2]] && s[1..][1..][1..] == [];
    assert Value(s[1..][1..]) == DigitOf(s[2]);
    assert Value(s[1..]) == DigitOf(s[1]) * 10 + DigitOf(s[2]);
  }

  /** Two entries with a blank and no semicolon between them are accepted. */
  lemma BlankSeparates(t: Triple, u: Triple)
    requires Whole(t) && Whole(u) && Readable(t) && Readable(u)
    ensures Parsed(Spelled(t) + (" " + Spelled(u))).ok
  {
    var ts, seps := [t, u], [" ", ""];
    TwoWoven(t, u);
    WovenAcceptedIff("", ts, seps);
  }

  lemma TwoWoven(t: Triple, u: Triple)
    ensures "" + Woven([t, u], [" ", ""]) == Spelled(t) + (" " + Spelled(u))
  {
    assert [t, u][1..] == [u] && [" ", ""][1..] == [""];
    assert Woven([], []) == "";
    assert [u][1..] == [] && [""][1..] == [];
    assert Woven([u], [""]) == Spelled(u) + ("" + Woven([], []));
    assert Spelled(u) + ("" + "") == Spelled(u);
    assert Woven([t, u], [" ", ""]) == Spelled(t) + (" " + Woven([u], [""]));
  }

  /** A day list with a comma behind it is accepted and not documented. */
  lemma TrailingCommaIsAccepted()
    ensures SpellsDays("mon,", MaskOf([0])) && !DocumentedDays("mon,")
  {
    OneName(0);
    assert Name(0) == "mon";
    assert LowerAll("mon,") == "mon,";
    assert DayList("mon,", [0], true);
    DocumentedDaysIff("mon,", MaskOf([0]));
  }
}
