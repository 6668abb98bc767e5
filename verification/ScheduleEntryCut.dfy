/**
 The printer in a short buffer (ScheduleText.h): what still fits of its pieces, and what
 one entry cut short reads as.
 */
module ScheduleEntryCut {
  import opened Machine
  import opened ScheduleWords
  import opened ScheduleText
  import opened ScheduleTextLaws
  import opened ScheduleTextRoom
  import opened ScheduleGrammar

  // ---- what still fits ------------------------------------------------------

  /** What the pieces add to a buffer with room for so many more characters. */
  function Fill(ps: seq<Piece>, room: nat): (r: string)
    ensures |r| <= room
    decreases |ps|
  {
    if ps == [] then ""
    else
      var t := PieceText(ps[0]);
      if |t| <= room then t + Fill(ps[1..], room - |t|)
      else if ps[0].Put? then t[..room]
      else Fill(ps[1..], room)
  }

  lemma {:induction false} FullStaysFull(o: string, ps: seq<Piece>, n: nat)
    requires |o| == n - 1
    ensures Render(o, ps, n) == o
    decreases |ps|
  {
    if ps != [] {
      assert PutPiece(o, ps[0], n) == o;
      FullStaysFull(o, ps[1..], n);
    }
  }

  lemma {:induction false} RenderIsFill(o: string, ps: seq<Piece>, n: nat)
    requires |o| < n
    ensures Render(o, ps, n) == o + Fill(ps, n - 1 - |o|)
    decreases |ps|
  {
    if ps == [] {
      assert o + "" == o;
    } else {
      var t, room := PieceText(ps[0]), n - 1 - |o|;
      if |t| <= room {
        RenderIsFill(o + t, ps[1..], n);
        Reassociate(o, t, Fill(ps[1..], room - |t|));
      } else if ps[0].Put? {
        FullStaysFull(o + t[..room], ps[1..], n);
      } else {
        RenderIsFill(o, ps[1..], n);
      }
    }
  }

  lemma {:induction false} NoRoomNoText(ps: seq<Piece>)
    ensures Fill(ps, 0) == ""
    decreases |ps|
  {
    if ps != [] {
      NoRoomNoText(ps[1..]);
    }
  }

  /** Pieces that fit leave the rest of the room to what follows. */
  lemma {:induction false} FillWhole(a: seq<Piece>, b: seq<Piece>, room: nat)
    requires |Cat(a)| <= room
    ensures Fill(a + b, room) == Cat(a) + Fill(b, room - |Cat(a)|)
    decreases |a|
  {
    if a == [] {
      assert a + b == b;
    } else {
      assert (a + b)[1..] == a[1..] + b;
      FillWhole(a[1..], b, room - |PieceText(a[0])|);
      Reassociate(PieceText(a[0]), Cat(a[1..]), Fill(b, room - |Cat(a)|));
    }
  }

  predicate AllPut(ps: seq<Piece>) {
    forall i :: 0 <= i < |ps| ==> ps[i].Put?
  }

  /** Pieces put character by character are cut where the room ends. */
  lemma {:induction false} FillCut(a: seq<Piece>, b: seq<Piece>, room: nat)
    requires AllPut(a) && room < |Cat(a)|
    ensures Fill(a + b, room) == Cat(a)[..room]
    decreases |a|
  {
    assert (a + b)[1..] == a[1..] + b;
    var t := PieceText(a[0]);
    if |t| <= room {
      FillCut(a[1..], b, room - |t|);
    }
  }

  // ---- one entry cut short --------------------------------------------------

  function Size(e: Entry): nat {
    |Cat(EntryPieces(e))|
  }

  function Head(m: u16): seq<Piece> {
    [Put2(m / 60), Put(":"), Put2(m % 60), Put(" ")]
  }

  /** The time cut short: a two-digit number is written or left out as a whole. */
  lemma HeadCut(m: u16, rest: seq<Piece>, room: nat)
    requires 0 < room < 6
    ensures var s := Fill(Head(m) + rest, room);
            && |s| == room && InWord(s[0])
            && (room == 5 ==> s == TimeText(m)) && (room == 4 ==> s[3] == ' ')
  {
    var p := Head(m) + rest;
    var p1 := [Put(":"), Put2(m % 60), Put(" ")] + rest;
    var p2 := [Put2(m % 60), Put(" ")] + rest;
    var p3 := [Put(" ")] + rest;
    assert p[1..] == p1 && p1[1..] == p2 && p2[1..] == p3 && p3[1..] == rest;
    DigitBack(m / 60 / 10);
    NoRoomNoText(rest);
    NoRoomNoText(p3);
    NoRoomNoText(p2);
    if room == 1 {
      assert Fill(p1, 1) == ":" + Fill(p2, 0);
    } else {
      assert Fill(p, room) == PieceText(Put2(m / 60)) + Fill(p1, room - 2);
      if room == 2 {
        NoRoomNoText(p1);
      } else {
        assert Fill(p1, room - 2) == ":" + Fill(p2, room - 3);
        if room == 4 {
          assert Fill(p2, 1) == Fill(p3, 1) == " " + Fill(rest, 0);
        } else if room == 5 {
          assert Fill(p2, 2) == PieceText(Put2(m % 60)) + Fill(p3, 0);
        }
      }
    }
  }

  lemma ShortWord(s: string)
    requires |s| < 4 || (|s| == 4 && s[3] == ' ')
    ensures |Word(s)| < 4
  {
    if |s| == 4 {
      WordStops(s, 3);
    }
  }

  lemma {:induction false} WordStops(s: string, k: nat)
    requires k < |s| && !InWord(s[k])
    ensures |Word(s)| <= k
    decreases |s|
  {
    if k > 0 && InWord(s[0]) {
      WordStops(s[1..], k - 1);
    }
  }

  /** The text of a day field cut short, or with one blank behind it, holds no action. */
  lemma NoActionYet(time: string, days: string, k: nat)
    requires AllWord(time) && days != [] && AllWord(days) && k <= |days| + 2
    ensures var s := time + (" " + (days + " "))[..k];
            FirstTriple(s).action == []
  {
    var w := (" " + (days + " "))[..k];
    WordIs(time, w);
    if k <= 1 {
      assert w == "" || w == " ";
      BlankIsSkipped(w);
    } else {
      var x := (days + " ")[..k - 1];
      assert w == " " + x;
      assert InWord(x[0]);
      assert (" " + x)[1..] == x && SkipSpaces(x) == x;
      if k - 1 <= |days| {
        assert x == days[..k - 1] + "";
        WordIs(days[..k - 1], "");
      } else {
        assert x == days + " ";
        WordIs(days, " ");
        BlankIsSkipped(" ");
      }
    }
  }

  lemma BlankIsSkipped(w: string)
    requires w == "" || w == " "
    ensures SkipSpaces(w) == "" && Word("") == "" && AfterWord("") == "" && SkipSpaces("") == ""
  {
    assert w == " " ==> w[1..] == "";
  }

  lemma IncompleteIsBad(t: Triple)
    requires |t.time| < 4 || t.action == []
    ensures ReadEntry(t).Bad?
  {
  }

  /** A proper prefix of an action's text is no action; neither is "position:" alone. */
  lemma CutActionIsBad(a: string, k: nat)
    requires a == "open" || a == "close" || a == "stop" || a == "position:"
    requires 0 < k < |a| || (k == |a| && a == "position:")
    ensures ParseAction(a[..k]).Bad? && AllWord(a[..k])
  {
    var s := a[..k];
    assert s[0] == a[0];
    NotToken(s, "open", 0);
    NotToken(s, "close", 0);
    NotToken(s, "stop", 0);
    if a == "position:" {
      PositionCut(k);
    } else {
      NoPosition(s);
    }
  }

  lemma NoPosition(s: string)
    requires 0 < |s| < 8
    ensures !TokenIs(s[..Find(s, ':')], "position")
  {
  }

  lemma PositionCut(k: nat)
    requires 0 < k <= 9
    ensures var s := "position:"[..k];
            && AllWord(s) && Find(s, ':') >= |s| - 1
            && !TokenIs(s, "open") && !TokenIs(s, "close") && !TokenIs(s, "stop")
  {
    var s := "position:"[..k];
    assert s[0] == 'p';
    if k == 9 {
      assert s == "position" + ":";
      FindIs("position", ':', ":");
    } else {
      assert s == s + "" && ':' !in s;
      FindIs(s, ':', "");
    }
  }

  /** Only the percentage 100 is put character by character. */
  predicate IsHundred(e: Entry) {
    e.action == ACTION_POSITION && e.positionPct == 100
  }

  function ActionOf(e: Entry): string {
    ActionText(e.action, e.positionPct)
  }

  /** What a plain action leaves in too little room. */
  lemma PlainCut(e: Entry, rest: seq<Piece>, q: nat)
    requires Accepted(e) && e.action != ACTION_POSITION && 0 < q < |ActionOf(e)|
    ensures var a := Fill(ActionPieces(e) + rest, q);
            a == ActionOf(e)[..q] && ParseAction(a).Bad? && AllWord(a)
  {
    ActionIsPrinted(e);
    FillCut(ActionPieces(e), rest, q);
    CutActionIsBad(ActionOf(e), q);
  }

  /** What a position leaves: part of the word, the word alone and perhaps a character of
      what follows, or part of 100. */
  lemma PositionCutShort(e: Entry, rest: seq<Piece>, q: nat) returns (a: string, z: string)
    requires Accepted(e) && e.action == ACTION_POSITION && 0 < q < |ActionOf(e)| && Ends(Fill(rest, 1))
    ensures Fill(ActionPieces(e) + rest, q) == a + z && Ends(z) && a != [] && AllWord(a)
    ensures if IsHundred(e) && q >= 10 then a == "position:" + PercentText(if q == 10 then 1 else 10) && z == ""
            else ParseAction(a).Bad?
  {
    var last := ActionPieces(e)[1];
    assert ActionPieces(e) == [Put("position:")] + [last];
    assert ActionPieces(e) + rest == [Put("position:")] + ([last] + rest);
    OnePiece("position:");
    if q < 9 {
      FillCut([Put("position:")], [last] + rest, q);
      CutActionIsBad("position:", q);
      a, z := "position:"[..q], "";
      assert a + z == a;
    } else {
      FillWhole([Put("position:")], [last] + rest, q);
      CutActionIsBad("position:", 9);
      assert "position:"[..9] == "position:";
      assert ([last] + rest)[1..] == rest;
      LastCut(e, last, rest, q - 9);
      if IsHundred(e) && q >= 10 {
        PercentBack(if q == 10 then 1 else 10);
        a, z := "position:" + PercentText(if q == 10 then 1 else 10), "";
        assert a + z == a;
      } else {
        a, z := "position:", Fill([last] + rest, q - 9);
      }
    }
  }

  lemma LastCut(e: Entry, last: Piece, rest: seq<Piece>, room: nat)
    requires e.action == ACTION_POSITION && ActionPieces(e) == [Put("position:"), last] && Ends(Fill(rest, 1))
    requires e.positionPct <= 100 && room < |PercentText(e.positionPct)|
    ensures var s := Fill([last] + rest, room);
            if IsHundred(e) && room > 0 then s == PercentText(if room == 1 then 1 else 10) else Ends(s)
  {
    assert ([last] + rest)[1..] == rest;
    NoRoomNoText([last] + rest);
    NoRoomNoText(rest);
    if IsHundred(e) {
      assert last == Put("100");
      assert "100"[..1] == "1" == [DigitChar(1)] && "100"[..2] == "10" == [DigitChar(1), DigitChar(10)];
    }
  }

  lemma EntryIsParts(e: Entry, rest: seq<Piece>)
    ensures EntryPieces(e) + rest
         == Head(e.minuteOfDay) + (DayPieces(e.dayMask) + ([Put(" ")] + (ActionPieces(e) + rest)))
  {
  }

  lemma EntrySize(e: Entry)
    requires Accepted(e)
    ensures |Cat(EntryPieces(e))| == 7 + |DaysText(e.dayMask)| + |ActionOf(e)|
    ensures |ActionOf(e)| >= 4 && DaysText(e.dayMask) != []
  {
    EntryIsSpelled(e);
    DaysBack(e.dayMask);
    ActionBack(e.action, e.positionPct);
  }

  lemma {:induction false} NamesArePut(mask: Days, d: nat, first: bool)
    requires d <= 7
    ensures AllPut(NamePieces(mask, d, first))
    decreases 7 - d
  {
    if d < 7 {
      NamesArePut(mask, d + 1, first);
      NamesArePut(mask, d + 1, false);
    }
  }

  lemma FieldCut(a: seq<Piece>, acts: seq<Piece>, room: nat)
    requires AllPut(a) && room <= |Cat(a)| + 1
    ensures Fill(a + ([Put(" ")] + acts), room) == (Cat(a) + " ")[..room]
  {
    var after := [Put(" ")] + acts;
    if room < |Cat(a)| {
      FillCut(a, after, room);
    } else {
      FillWhole(a, after, room);
      assert after[1..] == acts;
      NoRoomNoText(after);
      NoRoomNoText(acts);
    }
  }

  lemma FieldCutAfter(h: seq<Piece>, a: seq<Piece>, acts: seq<Piece>, room: nat)
    requires AllPut(a) && |Cat(h)| <= room <= |Cat(h)| + |Cat(a)| + 1
    ensures Fill(h + (a + ([Put(" ")] + acts)), room) == Cat(h) + (Cat(a) + " ")[..room - |Cat(h)|]
  {
    FillWhole(h, a + ([Put(" ")] + acts), room);
    FieldCut(a, acts, room - |Cat(h)|);
  }

  lemma DaysArePut(mask: Days)
    ensures AllPut(DayPieces(mask))
  {
    NamesArePut(mask, 0, true);
  }

  /** The time is whole and the day field is cut, or has at most its blank behind it. */
  lemma DaysCut(e: Entry, rest: seq<Piece>, room: nat)
    requires Accepted(e) && 6 <= room <= 7 + |DaysText(e.dayMask)|
    ensures Fill(EntryPieces(e) + rest, room)
         == TimeText(e.minuteOfDay) + (" " + (DaysText(e.dayMask) + " "))[..room - 5]
  {
    EntryIsParts(e, rest);
    HeadText(e.minuteOfDay);
    DaysArePrinted(e.dayMask);
    DaysArePut(e.dayMask);
    FieldCutAfter(Head(e.minuteOfDay), DayPieces(e.dayMask), ActionPieces(e) + rest, room);
    BlankAndDays(TimeText(e.minuteOfDay), DaysText(e.dayMask), (DaysText(e.dayMask) + " ")[..room - 6], room - 6);
  }

  lemma BlankAndDays(t: string, d: string, s: string, k: nat)
    requires k <= |d| + 1 && s == (d + " ")[..k]
    ensures (t + " ") + s == t + (" " + (d + " "))[..k + 1]
  {
    assert (" " + (d + " "))[..k + 1] == " " + s;
  }

  lemma FieldsWhole(h: seq<Piece>, a: seq<Piece>, acts: seq<Piece>, room: nat)
    requires room >= |Cat(h)| + |Cat(a)| + 1
    ensures Fill(h + (a + ([Put(" ")] + acts)), room)
         == Cat(h) + (Cat(a) + (" " + Fill(acts, room - |Cat(h)| - |Cat(a)| - 1)))
  {
    FillWhole(h, a + ([Put(" ")] + acts), room);
    FillWhole(a, [Put(" ")] + acts, room - |Cat(h)|);
    OnePiece(" ");
    FillWhole([Put(" ")], acts, room - |Cat(h)| - |Cat(a)|);
  }

  /** Time and days are whole: the action is cut. */
  lemma ActionLeft(e: Entry, rest: seq<Piece>, room: nat)
    requires Accepted(e) && room >= 7 + |DaysText(e.dayMask)|
    ensures var a := Fill(ActionPieces(e) + rest, room - 7 - |DaysText(e.dayMask)|);
            Fill(EntryPieces(e) + rest, room) == TimeText(e.minuteOfDay) + (" " + (DaysText(e.dayMask) + (" " + a)))
  {
    var t, d, acts := TimeText(e.minuteOfDay), DaysText(e.dayMask), ActionPieces(e) + rest;
    EntryIsParts(e, rest);
    HeadText(e.minuteOfDay);
    DaysArePrinted(e.dayMask);
    FieldsWhole(Head(e.minuteOfDay), DayPieces(e.dayMask), acts, room);
    Reassociate(t, " ", d + (" " + Fill(acts, room - 7 - |d|)));
  }

  lemma SpelledPlus(t: string, d: string, a: string, z: string)
    ensures t + (" " + (d + (" " + (a + z)))) == Spelled(Triple(t, d, a)) + z
  {
  }

  /** How much of the percentage a cut leaves to be read. */
  function CutPercent(e: Entry, missing: int): Entry {
    e.(positionPct := if missing == 2 then 1 else 10)
  }

  /** Where the action word of a cut entry ends, and what stands behind it. */
  lemma ActionWord(e: Entry, rest: seq<Piece>, q: nat) returns (a: string, z: string)
    requires Accepted(e) && 0 < q < |ActionOf(e)| && Ends(Fill(rest, 1))
    ensures Fill(ActionPieces(e) + rest, q) == a + z && Ends(z) && a != [] && AllWord(a)
    ensures if IsHundred(e) && q >= 10 then a == "position:" + PercentText(if q == 10 then 1 else 10) && z == ""
            else ParseAction(a).Bad?
  {
    if e.action == ACTION_POSITION {
      a, z := PositionCutShort(e, rest, q);
    } else {
      PlainCut(e, rest, q);
      a, z := Fill(ActionPieces(e) + rest, q), "";
      assert a + z == a;
    }
  }

  /** One or two digits of 100 are missing. */
  predicate InPercent(e: Entry, missing: int) {
    IsHundred(e) && missing <= 2
  }

  lemma ActionCut(e: Entry, rest: seq<Piece>, room: nat) returns (a: string, z: string)
    requires Accepted(e) && Ends(Fill(rest, 1))
    requires 7 + |DaysText(e.dayMask)| < room < Size(e)
    ensures a != [] && AllWord(a) && Ends(z)
    ensures Fill(EntryPieces(e) + rest, room)
         == TimeText(e.minuteOfDay) + (" " + (DaysText(e.dayMask) + (" " + (a + z))))
    ensures InPercent(e, Size(e) - room) ==>
              a == "position:" + PercentText(if Size(e) - room == 2 then 1 else 10) && z == ""
    ensures !InPercent(e, Size(e) - room) ==> ParseAction(a).Bad?
  {
    var q := room - 7 - |DaysText(e.dayMask)|;
    EntrySize(e);
    HundredSize(e);
    ActionLeft(e, rest, room);
    a, z := ActionWord(e, rest, q);
  }

  /** An entry cut anywhere but in the percentage 100 is refused. */
  lemma EntryCutIsBad(e: Entry, rest: seq<Piece>, room: nat)
    requires Accepted(e) && 0 < room < Size(e) && Ends(Fill(rest, 1)) && !InPercent(e, Size(e) - room)
    ensures var s := Fill(EntryPieces(e) + rest, room);
            s != [] && InWord(s[0]) && ReadEntry(FirstTriple(s)).Bad?
  {
    var t, d := TimeText(e.minuteOfDay), DaysText(e.dayMask);
    EntrySize(e);
    if room < 6 {
      TimeCutIsBad(e, rest, room);
    } else if room <= 7 + |d| {
      DaysCutIsBad(e, rest, room);
    } else {
      var a, z := ActionCut(e, rest, room);
      TimeAndDays(e, a, z);
      BadAction(Triple(t, d, a));
    }
  }

  lemma TimeCutIsBad(e: Entry, rest: seq<Piece>, room: nat)
    requires Accepted(e) && 0 < room < 6
    ensures var s := Fill(EntryPieces(e) + rest, room);
            s != [] && InWord(s[0]) && ReadEntry(FirstTriple(s)).Bad?
  {
    var t, d := TimeText(e.minuteOfDay), DaysText(e.dayMask);
    var s := Fill(EntryPieces(e) + rest, room);
    EntryIsParts(e, rest);
    HeadCut(e.minuteOfDay, DayPieces(e.dayMask) + ([Put(" ")] + (ActionPieces(e) + rest)), room);
    if room == 5 {
      TimeBack(e.minuteOfDay);
      DaysBack(e.dayMask);
      NoActionYet(t, d, 0);
      assert t + (" " + (d + " "))[..0] == t;
    } else {
      ShortWord(s);
    }
    IncompleteIsBad(FirstTriple(s));
  }

  lemma DaysCutIsBad(e: Entry, rest: seq<Piece>, room: nat)
    requires Accepted(e) && 6 <= room <= 7 + |DaysText(e.dayMask)|
    ensures var s := Fill(EntryPieces(e) + rest, room);
            s != [] && InWord(s[0]) && ReadEntry(FirstTriple(s)).Bad?
  {
    TimeBack(e.minuteOfDay);
    DaysBack(e.dayMask);
    DaysCut(e, rest, room);
    NoActionYet(TimeText(e.minuteOfDay), DaysText(e.dayMask), room - 5);
    IncompleteIsBad(FirstTriple(Fill(EntryPieces(e) + rest, room)));
  }

  /** Cut in the percentage 100 it reads as the percentage that is left. */
  lemma EntryCutIsPercent(e: Entry, rest: seq<Piece>, room: nat)
    requires Accepted(e) && 0 < room < Size(e) && Ends(Fill(rest, 1)) && InPercent(e, Size(e) - room)
    ensures var s := Fill(EntryPieces(e) + rest, room);
            && s != [] && InWord(s[0]) && FirstTriple(s) == TripleOf(CutPercent(e, Size(e) - room)) && Rest(s) == ""
  {
    EntrySize(e);
    HundredSize(e);
    var a, z := ActionCut(e, rest, room);
    TimeAndDays(e, a, z);
  }

  lemma HundredSize(e: Entry)
    ensures IsHundred(e) ==> |ActionOf(e)| == 12
  {
  }

  lemma TimeAndDays(e: Entry, a: string, z: string)
    requires Accepted(e) && a != [] && AllWord(a) && Ends(z)
    ensures var t := Triple(TimeText(e.minuteOfDay), DaysText(e.dayMask), a);
            var s := t.time + (" " + (t.days + (" " + (a + z))));
            s != [] && InWord(s[0]) && FirstTriple(s) == t && Rest(s) == z
  {
    TimeBack(e.minuteOfDay);
    DaysBack(e.dayMask);
    SpelledPlus(TimeText(e.minuteOfDay), DaysText(e.dayMask), a, z);
    TripleBack(Triple(TimeText(e.minuteOfDay), DaysText(e.dayMask), a), z);
  }

  lemma BadAction(t: Triple)
    requires ParseAction(t.action).Bad?
    ensures ReadEntry(t).Bad?
  {
  }
}
