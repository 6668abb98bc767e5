/**
 Why a schedule text is refused (ScheduleText.h): every refusal names its reason, and the
 reason is decided by the words of the text alone.
 */
module ScheduleReasons {
  import opened Machine
  import opened ScheduleWords
  import opened ScheduleText
  import opened ScheduleTextLaws
  import opened ScheduleGrammar

  // ---- the time word --------------------------------------------------------

  /** What stands before and behind the first colon. */
  predicate AroundColon(tok: string, h: string, m: string) {
    tok == h + (":" + m) && ':' !in h
  }

  lemma AroundFirst(tok: string, h: string, m: string)
    requires AroundColon(tok, h, m)
    ensures Find(tok, ':') == |h| && tok[..|h|] == h && tok[|h| + 1..] == m
  {
    FindIs(h, ':', ":" + m);
  }

  /** A time is refused for its shape exactly when it has not four or five characters with a
      colon among them. */
  lemma ExpectedTimeIff(tok: string)
    ensures ParseTime(tok) == Bad(ExpectedTime, Some(tok)) <==> !(4 <= |tok| <= 5) || ':' !in tok
  {
    FindAt(tok, ':');
  }

  /** In shape: refused for its hour, its minute or its size exactly when what stands before
      the colon is no number, else what stands behind it is none, else one is too large. */
  lemma TimeReasonIff(tok: string, h: string, m: string)
    requires 4 <= |tok| <= 5 && AroundColon(tok, h, m)
    ensures ParseTime(tok) == Bad(BadHour, Some(tok)) <==> !AllDigits(h)
    ensures ParseTime(tok) == Bad(BadMinute, Some(tok)) <==> AllDigits(h) && !AllDigits(m)
    ensures ParseTime(tok) == Bad(TimeOutOfRange, Some(tok))
       <==> AllDigits(h) && AllDigits(m) && (Value(h) >= 24 || Value(m) >= 60)
  {
    AroundFirst(tok, h, m);
    NumberIsValue(h);
    NumberIsValue(m);
  }

  // ---- the days word --------------------------------------------------------

  ghost predicate IsDayName(name: string) {
    exists d: Day :: Says(name, Name(d))
  }

  lemma DayBitIff(name: string)
    ensures DayBit(name).Some? <==> IsDayName(name)
  {
    forall d: Day
      ensures TokenIs(name, Name(d)) <==> Says(name, Name(d))
    {
      SaysIff(name, Name(d));
    }
    if DayBit(name).Some? {
      assert Says(name, Name(DayBit(name).value));
    }
  }

  /** The first of the names that is no day. */
  ghost predicate FirstUnknown(names: seq<string>, k: string) {
    exists i :: 0 <= i < |names| && names[i] == k && !IsDayName(k) && forall j :: 0 <= j < i ==> IsDayName(names[j])
  }

  lemma LaterUnknown(name: string, more: seq<string>, k: string)
    requires IsDayName(name)
    ensures FirstUnknown([name] + more, k) <==> FirstUnknown(more, k)
  {
    var all := [name] + more;
    if FirstUnknown(all, k) {
      var i :| 0 <= i < |all| && all[i] == k && !IsDayName(k) && forall j :: 0 <= j < i ==> IsDayName(all[j]);
      forall j | 0 <= j < i - 1
        ensures IsDayName(more[j])
      {
        assert more[j] == all[j + 1];
      }
      assert more[i - 1] == k;
    }
    if FirstUnknown(more, k) {
      var i :| 0 <= i < |more| && more[i] == k && !IsDayName(k) && forall j :: 0 <= j < i ==> IsDayName(more[j]);
      forall j | 0 <= j < i + 1
        ensures IsDayName(all[j])
      {
        assert j > 0 ==> all[j] == more[j - 1];
      }
      assert all[i + 1] == k;
    }
  }

  lemma {:induction false} UnknownNameIff(names: seq<string>, mask: Days, k: string)
    requires !mask[7]
    ensures SetDays(names, mask) == Bad(UnknownDay, Some(k)) <==> FirstUnknown(names, k)
    decreases |names|
  {
    if names != [] {
      DayBitIff(names[0]);
      assert names == [names[0]] + names[1..];
      if IsDayName(names[0]) {
        LaterUnknown(names[0], names[1..], k);
        UnknownNameIff(names[1..], mask[DayBit(names[0]).value := true], k);
      } else {
        OnlyFirst(names, k);
      }
    }
  }

  lemma OnlyFirst(names: seq<string>, k: string)
    requires names != [] && !IsDayName(names[0])
    ensures FirstUnknown(names, k) <==> names[0] == k
  {
    if names[0] == k {
      assert !IsDayName(names[0]);
    }
    if FirstUnknown(names, k) {
      var i :| 0 <= i < |names| && names[i] == k && !IsDayName(k) && forall j :: 0 <= j < i ==> IsDayName(names[j]);
      assert i == 0;
    }
  }

  /** A day word is refused exactly for the first name between its commas that is no day,
      and that name is what is quoted. */
  lemma UnknownDayIff(tok: string, k: string)
    requires tok != []
    ensures ParseDays(tok) == Bad(UnknownDay, Some(k))
       <==> !Says(tok, "daily") && !Says(tok, "weekdays") && !Says(tok, "weekend") && FirstUnknown(Commas(tok), k)
  {
    SaysIff(tok, "daily");
    SaysIff(tok, "weekdays");
    SaysIff(tok, "weekend");
    UnknownNameIff(Commas(tok), NoDay(), k);
  }

  // ---- the action word ------------------------------------------------------

  /** Its digits pass 100 before anything else than a digit comes. */
  ghost predicate PassesHundred(s: string) {
    exists n :: 0 <= n <= |s| && AllDigits(s[..n]) && Value(s[..n]) > 100
  }

  ghost predicate PassesFrom(v: nat, s: string) {
    exists n :: 0 <= n <= |s| && AllDigits(s[..n]) && v * Pow10(n) + Value(s[..n]) > 100
  }

  lemma PassesStep(v: nat, s: string)
    requires s != [] && IsDigit(s[0]) && v <= 100
    ensures PassesFrom(v, s) <==> PassesFrom(v * 10 + DigitOf(s[0]), s[1..])
  {
    var d := DigitOf(s[0]);
    forall n | 0 < n <= |s|
      ensures s[..n][1..] == s[1..][..n - 1]
      ensures AllDigits(s[..n]) <==> AllDigits(s[1..][..n - 1])
      ensures AllDigits(s[..n]) ==>
                v * Pow10(n) + Value(s[..n]) == (v * 10 + d) * Pow10(n - 1) + Value(s[1..][..n - 1])
    {
      FirstDigit(v, s, n);
    }
    if PassesFrom(v, s) {
      var n :| 0 <= n <= |s| && AllDigits(s[..n]) && v * Pow10(n) + Value(s[..n]) > 100;
      assert Pow10(0) == 1 && s[..0] == "";
      assert n > 0;
      assert AllDigits(s[1..][..n - 1]);
    }
    if PassesFrom(v * 10 + d, s[1..]) {
      var n :| 0 <= n <= |s[1..]| && AllDigits(s[1..][..n])
               && (v * 10 + d) * Pow10(n) + Value(s[1..][..n]) > 100;
      assert AllDigits(s[..n + 1]);
    }
  }

  lemma FirstDigit(v: nat, s: string, n: nat)
    requires s != [] && IsDigit(s[0]) && 0 < n <= |s|
    ensures s[..n][1..] == s[1..][..n - 1]
    ensures AllDigits(s[..n]) <==> AllDigits(s[1..][..n - 1])
    ensures AllDigits(s[..n]) ==>
              v * Pow10(n) + Value(s[..n]) == (v * 10 + DigitOf(s[0])) * Pow10(n - 1) + Value(s[1..][..n - 1])
  {
    assert s[..n] == [s[0]] + s[1..][..n - 1];
    Shift(v, DigitOf(s[0]), Pow10(n - 1));
  }

  lemma PassesAtOnce(v: nat, s: string)
    requires v > 100
    ensures PassesFrom(v, s)
  {
    assert s[..0] == "" && Pow10(0) == 1 && Value("") == 0;
    assert AllDigits(s[..0]) && v * Pow10(0) + Value(s[..0]) > 100;
  }

  lemma {:induction false} PercentReason(s: string, v: nat)
    ensures (Percent(s, v).Some? && Percent(s, v).value > 100) <==> PassesFrom(v, s)
    ensures Percent(s, v).None? <==> !PassesFrom(v, s) && !AllDigits(s)
    decreases |s|
  {
    if v > 100 {
      PassesAtOnce(v, s);
    } else if s == [] {
      assert Pow10(0) == 1 && s[..0] == "";
    } else if IsDigit(s[0]) {
      PassesStep(v, s);
      PercentReason(s[1..], v * 10 + DigitOf(s[0]));
      assert AllDigits(s) <==> AllDigits(s[1..]);
    } else {
      NoDigitFirst(v, s);
    }
  }

  lemma NoDigitFirst(v: nat, s: string)
    requires s != [] && !IsDigit(s[0]) && v <= 100
    ensures !PassesFrom(v, s) && !AllDigits(s)
  {
    forall n | 0 < n <= |s|
      ensures !AllDigits(s[..n])
    {
      assert s[..n][0] == s[0];
    }
    assert s[..0] == "" && Pow10(0) == 1 && Value("") == 0;
  }

  lemma PassesFromNothing(s: string)
    ensures PassesFrom(0, s) <==> PassesHundred(s)
  {
    if PassesFrom(0, s) {
      var n :| 0 <= n <= |s| && AllDigits(s[..n]) && 0 * Pow10(n) + Value(s[..n]) > 100;
      assert Value(s[..n]) > 100;
    }
    if PassesHundred(s) {
      var n :| 0 <= n <= |s| && AllDigits(s[..n]) && Value(s[..n]) > 100;
      assert 0 * Pow10(n) + Value(s[..n]) > 100;
    }
  }

  predicate PlainAction(tok: string) {
    Says(tok, "open") || Says(tok, "close") || Says(tok, "stop")
  }

  /** What stands behind "position:". */
  predicate Behind(tok: string, p: string) {
    |tok| == 9 + |p| && Says(tok[..8], "position") && tok[8] == ':' && tok[9..] == p
  }

  lemma ColonAfterPosition(tok: string, p: string)
    requires Behind(tok, p)
    ensures Find(tok, ':') == 8 && TokenIs(tok[..8], "position") && !PlainAction(tok)
  {
    var h := tok[..8];
    SaysIff(h, "position");
    assert tok == h + (":" + p);
    NoColonIn(h);
    FindIs(h, ':', ":" + p);
    assert tok[8] == ':' && |tok| >= 9;
  }

  /** "position:" with something behind it: refused for its size exactly when its digits pass
      100 before anything else comes, for its form exactly when they do not and something
      else comes; with nothing behind it, for the percentage it lacks. */
  lemma PositionReasonIff(tok: string, p: string)
    requires Behind(tok, p)
    ensures ParseAction(tok) == Bad(NeedsPercentage, Some(tok)) <==> p == []
    ensures ParseAction(tok) == Bad(PercentageAbove100, Some(tok)) <==> PassesHundred(p)
    ensures ParseAction(tok) == Bad(BadPercentage, Some(tok)) <==> p != [] && !PassesHundred(p) && !AllDigits(p)
  {
    ColonAfterPosition(tok, p);
    SaysIff(tok, "open");
    SaysIff(tok, "close");
    SaysIff(tok, "stop");
    PercentReason(p, 0);
    PassesFromNothing(p);
  }

  /** Any other word that is none of the three is unknown. */
  lemma UnknownActionIff(tok: string)
    ensures ParseAction(tok) == Bad(UnknownAction, Some(tok))
       <==> !PlainAction(tok) && !Says(tok, "position") && forall p :: !Behind(tok, p)
  {
    var c := Find(tok, ':');
    FindAt(tok, ':');
    SaysIff(tok, "open");
    SaysIff(tok, "close");
    SaysIff(tok, "stop");
    SaysIff(tok, "position");
    SaysIff(tok[..c], "position");
    if TokenIs(tok[..c], "position") {
      if c == |tok| {
        assert tok[..c] == tok;
      } else {
        assert Behind(tok, tok[9..]);
      }
    }
    forall p | Behind(tok, p)
      ensures TokenIs(tok[..c], "position")
    {
      ColonAfterPosition(tok, p);
    }
    if Says(tok, "position") {
      NoColonIn(tok);
      assert tok[..|tok|] == tok;
      FoundIsThere(tok, ':');
    }
  }

  lemma NoColonIn(tok: string)
    requires Says(tok, "position")
    ensures ':' !in tok
  {
    var lit := "position";
    forall i | 0 <= i < |tok|
      ensures tok[i] != ':'
    {
      assert lit[i] == Lower(tok[i]) && lit[i] != ':';
    }
  }

  lemma {:induction false} FoundIsThere(s: string, c: char)
    ensures Find(s, c) < |s| ==> c in s
    decreases |s|
  {
    if s != [] && s[0] != c {
      FoundIsThere(s[1..], c);
    }
  }

  // ---- entries and texts ----------------------------------------------------

  datatype Place = WholeText | TimeWord | DaysWord | ActionWord

  /** Which word a reason speaks of. */
  function PlaceOf(m: Msg): Place {
    match m
    case TooManyEntries => WholeText
    case ExpectedTime => TimeWord
    case BadHour => TimeWord
    case BadMinute => TimeWord
    case TimeOutOfRange => TimeWord
    case MissingDays => DaysWord
    case UnknownDay => DaysWord
    case _ => ActionWord
  }

  ghost predicate TimeIsSpelled(t: Triple) {
    exists minute :: SpellsTime(t.time, minute)
  }

  ghost predicate DaysAreSpelled(t: Triple) {
    exists mask :: SpellsDays(t.days, mask)
  }

  ghost predicate ActionIsSpelled(t: Triple) {
    exists action, pct :: SpellsAction(t.action, action, pct)
  }

  lemma TimeSpelledIff(t: Triple)
    ensures ParseTime(t.time).Ok? <==> TimeIsSpelled(t)
    ensures ParseTime(t.time).Bad? ==> PlaceOf(ParseTime(t.time).msg).TimeWord?
  {
    if ParseTime(t.time).Ok? {
      TimeIff(t.time, ParseTime(t.time).v);
    }
    forall minute | SpellsTime(t.time, minute)
      ensures ParseTime(t.time).Ok?
    {
      var h, m :| TimeParts(t.time, h, m, minute);
      TimeIff(t.time, minute);
    }
  }

  lemma DaysSpelledIff(t: Triple)
    ensures (t.days != [] && ParseDays(t.days).Ok?) <==> DaysAreSpelled(t)
    ensures t.days != [] && ParseDays(t.days).Bad? ==> ParseDays(t.days).msg.UnknownDay?
  {
    if t.days != [] && ParseDays(t.days).Ok? {
      DaysIff(t.days, ParseDays(t.days).v);
    }
    if t.days != [] {
      BadDayIsUnknown(Commas(t.days), NoDay());
    }
    forall mask | SpellsDays(t.days, mask)
      ensures t.days != [] && ParseDays(t.days).Ok?
    {
      NeverEmpty(t.days, mask, 0, 0);
      DaysIff(t.days, mask);
    }
  }

  lemma {:induction false} BadDayIsUnknown(names: seq<string>, mask: Days)
    requires !mask[7]
    ensures SetDays(names, mask).Bad? ==> SetDays(names, mask).msg.UnknownDay?
    decreases |names|
  {
    if names != [] && DayBit(names[0]).Some? {
      BadDayIsUnknown(names[1..], mask[DayBit(names[0]).value := true]);
    }
  }

  lemma ActionSpelledIff(t: Triple)
    ensures ParseAction(t.action).Ok? ==> ActionIsSpelled(t)
    ensures ActionIsSpelled(t) ==> t.action != [] && ParseAction(t.action).Ok?
    ensures ParseAction(t.action).Bad? ==> PlaceOf(ParseAction(t.action).msg).ActionWord?
                                           && !ParseAction(t.action).msg.MissingAction?
  {
    if ParseAction(t.action).Ok? {
      ActionIff(t.action, ParseAction(t.action).v.action, ParseAction(t.action).v.pct);
    }
    forall action, pct | SpellsAction(t.action, action, pct)
      ensures t.action != [] && ParseAction(t.action).Ok?
    {
      NeverEmpty(t.action, NoDay(), action, pct);
      ActionIff(t.action, action, pct);
    }
  }

  lemma BadTime(t: Triple)
    ensures ParseTime(t.time).Bad? ==>
              ReadEntry(t) == Bad(ParseTime(t.time).msg, ParseTime(t.time).tok) && PlaceOf(ReadEntry(t).msg).TimeWord?
  {
    TimeSpelledIff(t);
  }

  lemma BadDays(t: Triple)
    requires ParseTime(t.time).Ok?
    ensures t.days == [] ==> ReadEntry(t) == Bad(MissingDays, Some(t.time))
    ensures t.days != [] && ParseDays(t.days).Bad? ==> ReadEntry(t).Bad? && ReadEntry(t).msg.UnknownDay?
  {
    DaysSpelledIff(t);
  }

  lemma BadAction(t: Triple)
    requires ParseTime(t.time).Ok? && t.days != [] && ParseDays(t.days).Ok?
    ensures t.action == [] ==> ReadEntry(t) == Bad(MissingAction, Some(t.days))
    ensures t.action != [] && ParseAction(t.action).Bad? ==>
              ReadEntry(t).Bad? && PlaceOf(ReadEntry(t).msg).ActionWord? && !ReadEntry(t).msg.MissingAction?
    ensures ReadEntry(t).Ok? <==> t.action != [] && ParseAction(t.action).Ok?
  {
    ActionSpelledIff(t);
  }

  /** What the reason of a refusal has to be. */
  ghost predicate Blames(t: Triple, m: Msg, k: Option<string>) {
    if !TimeIsSpelled(t) then PlaceOf(m).TimeWord?
    else if t.days == [] then m.MissingDays? && k == Some(t.time)
    else if !DaysAreSpelled(t) then m.UnknownDay?
    else if t.action == [] then m.MissingAction? && k == Some(t.days)
    else PlaceOf(m).ActionWord? && !m.MissingAction?
  }

  /** A refused entry is refused for its first word that spells nothing; a missing word is
      told by the word before it. */
  lemma FirstBadWord(t: Triple)
    ensures ReadEntry(t).Bad? <==> !TimeIsSpelled(t) || !DaysAreSpelled(t) || !ActionIsSpelled(t)
    ensures ReadEntry(t).Bad? ==> Blames(t, ReadEntry(t).msg, ReadEntry(t).tok)
  {
    TimeSpelledIff(t);
    DaysSpelledIff(t);
    ActionSpelledIff(t);
    BadTime(t);
    if ParseTime(t.time).Ok? {
      BadDays(t);
      if t.days != [] && ParseDays(t.days).Ok? {
        BadAction(t);
      }
    }
  }

  /** The first entry that is one too many or cannot be read. */
  ghost predicate StopsAt(ts: seq<Triple>, i: nat) {
    && i < |ts| && i <= MAX_ENTRIES && (i == MAX_ENTRIES || !Readable(ts[i]))
    && forall j :: 0 <= j < i ==> Readable(ts[j])
  }

  lemma {:induction false} CollectStops(rs: seq<Res<Entry>>, acc: seq<Entry>, i: nat)
    requires i < |rs| && |acc| + i <= MAX_ENTRIES && (forall j :: 0 <= j < i ==> rs[j].Ok?)
    requires |acc| + i == MAX_ENTRIES || rs[i].Bad?
    ensures Collect(rs, acc) == if |acc| + i == MAX_ENTRIES then Reject(TooManyEntries, None)
                                else Reject(rs[i].msg, rs[i].tok)
    decreases |rs|
  {
    if i > 0 {
      CollectStops(rs[1..], acc + [rs[0].v], i - 1);
    }
  }

  /** A refused text tells of the first entry that stops it: the ninth, or the first of the
      eight before it that cannot be read, with that entry's own reason. */
  lemma RefusedFor(text: string, ts: seq<Triple>, i: nat)
    requires ts == Triples(text) && StopsAt(ts, i)
    ensures i == MAX_ENTRIES ==> Parsed(text) == Reject(TooManyEntries, None)
    ensures i < MAX_ENTRIES ==>
              ReadEntry(ts[i]).Bad? && Parsed(text) == Reject(ReadEntry(ts[i]).msg, ReadEntry(ts[i]).tok)
  {
    forall j | 0 <= j < |ts|
      ensures ReadEach(ts)[j].Ok? <==> Readable(ts[j])
    {
      ReadableIff(ts[j]);
    }
    CollectStops(ReadEach(ts), [], i);
  }

  // ---- the documented examples ----------------------------------------------

  lemma TwoDigits(s: string)
    requires |s| == 2 && AllDigits(s)
    ensures Value(s) == DigitOf(s[0]) * 10 + DigitOf(s[1])
  {
    assert Pow10(1) == 10 * Pow10(0) && Pow10(0) == 1;
    assert s[1..][0] == s[1] && s[1..][1..] == "";
    assert Value(s[1..]) == DigitOf(s[1]) * Pow10(0) + Value("");
  }

  lemma DocumentedTimes()
    ensures ParseTime("25:99") == Bad(TimeOutOfRange, Some("25:99"))
    ensures ParseTime("0600") == Bad(ExpectedTime, Some("0600")) && ParseTime("6:0") == Bad(ExpectedTime, Some("6:0"))
  {
    TwoDigits("25");
    TwoDigits("99");
    assert "25:99" == "25" + (":" + "99");
    TimeReasonIff("25:99", "25", "99");
    ExpectedTimeIff("0600");
    ExpectedTimeIff("6:0");
  }

  lemma WiggleIsUnknown()
    ensures ParseAction("wiggle") == Bad(UnknownAction, Some("wiggle"))
  {
    assert LowerAll("wiggle")[0] == 'w';
    UnknownActionIff("wiggle");
  }

  lemma BarePosition(tok: string)
    requires Says(tok, "position")
    ensures ParseAction(tok) == Bad(NeedsPercentage, Some(tok))
  {
    NoColonIn(tok);
    FoundIsThere(tok, ':');
    SaysIff(tok, "position");
    SaysIff(tok, "open");
    SaysIff(tok, "close");
    SaysIff(tok, "stop");
    assert tok[..|tok|] == tok;
  }

  lemma DocumentedActions()
    ensures ParseAction("wiggle") == Bad(UnknownAction, Some("wiggle"))
    ensures ParseAction("position") == Bad(NeedsPercentage, Some("position"))
  {
    WiggleIsUnknown();
    assert LowerAll("position") == "position";
    BarePosition("position");
  }

  lemma DocumentedPercentage()
    ensures ParseAction("position:140") == Bad(PercentageAbove100, Some("position:140"))
  {
    var tok, p := "position:140", "140";
    assert tok[..8] == "position" && tok[9..] == p;
    assert LowerAll("position") == "position";
    PositionReasonIff(tok, p);
    assert p[..3] == p && p[1..] == "40";
    TwoDigits("40");
    assert Pow10(2) == 10 * Pow10(1) && Pow10(1) == 10 * Pow10(0) && Pow10(0) == 1;
    assert Value(p) == 1 * Pow10(2) + Value(p[1..]);
    assert AllDigits(p[..3]) && Value(p[..3]) > 100;
  }

  /** The message, then the word in quotes, while both fit. */
  lemma Quoted(msg: string, tok: string)
    requires |msg| < ERROR_LEN - 4 && |msg| + |tok| <= ERROR_LEN - 4
    ensures ErrorText(msg, Some(tok)) == msg + " '" + tok + "'"
  {
  }

  lemma DocumentedTexts()
    ensures ErrorText(MsgText(TimeOutOfRange), Some("25:99")) == "time out of range: '25:99'"
    ensures ErrorText(MsgText(ExpectedTime), Some("0600")) == "expected HH:MM, got '0600'"
    ensures ErrorText(MsgText(UnknownDay), Some("funday")) == "unknown day 'funday'"
    ensures ErrorText(MsgText(UnknownAction), Some("wiggle")) == "unknown action 'wiggle'"
    ensures ErrorText(MsgText(TooManyEntries), None) == "more than 8 entries"
  {
    Quoted(MsgText(TimeOutOfRange), "25:99");
    Quoted(MsgText(ExpectedTime), "0600");
    Quoted(MsgText(UnknownDay), "funday");
    Quoted(MsgText(UnknownAction), "wiggle");
  }

  lemma OtherTexts()
    ensures ErrorText(MsgText(PercentageAbove100), Some("position:140")) == "percentage above 100 in 'position:140'"
    ensures ErrorText(MsgText(MissingDays), Some("06:00")) == "missing days after '06:00'"
    ensures ErrorText(MsgText(MissingAction), Some("daily")) == "missing action after 'daily'"
  {
    Quoted(MsgText(PercentageAbove100), "position:140");
    Quoted(MsgText(MissingDays), "06:00");
    Quoted(MsgText(MissingAction), "daily");
  }

  lemma UndocumentedTexts()
    ensures ErrorText(MsgText(BadHour), Some("x6:00")) == "bad hour in 'x6:00'"
    ensures ErrorText(MsgText(BadMinute), Some("06:x0")) == "bad minute in '06:x0'"
    ensures ErrorText(MsgText(BadPercentage), Some("position:x")) == "bad percentage in 'position:x'"
  {
    Quoted(MsgText(BadHour), "x6:00");
    Quoted(MsgText(BadMinute), "06:x0");
    Quoted(MsgText(BadPercentage), "position:x");
  }

  lemma SixIsSpelled()
    ensures SpellsTime("06:00", 360)
  {
    TwoDigits("06");
    TwoDigits("00");
    assert "06:00" == "06" + (":" + "00");
    assert TimeParts("06:00", "06", "00", 360);
  }

  /** Two documented examples that do not agree with the code: what is missing behind "06:00"
      is the days, and a missing action is told by the day word before it. */
  lemma MissingWords()
    ensures ReadEntry(Triple("06:00", "", "")) == Bad(MissingDays, Some("06:00"))
    ensures ReadEntry(Triple("06:00", "daily", "")) == Bad(MissingAction, Some("daily"))
  {
    SixIsSpelled();
    NoDays(Triple("06:00", "", ""), 360);
    DailyIsSpelled();
    NoAction(Triple("06:00", "daily", ""), 360, Daily());
  }

  lemma NoDays(t: Triple, minute: int)
    requires SpellsTime(t.time, minute) && t.days == []
    ensures ReadEntry(t) == Bad(MissingDays, Some(t.time))
  {
    assert TimeIsSpelled(t);
    DaysSpelledIff(t);
    FirstBadWord(t);
  }

  lemma NoAction(t: Triple, minute: int, mask: Days)
    requires SpellsTime(t.time, minute) && SpellsDays(t.days, mask) && t.action == []
    ensures ReadEntry(t) == Bad(MissingAction, Some(t.days))
  {
    assert TimeIsSpelled(t) && DaysAreSpelled(t);
    ActionSpelledIff(t);
    FirstBadWord(t);
  }
}
