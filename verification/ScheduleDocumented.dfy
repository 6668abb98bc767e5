/**
 The documented grammar of a whole schedule text (ScheduleText.h): which texts it
 derives, against what the reader takes a text apart into.
 */
module ScheduleDocumented {
  import opened ScheduleWords
  import opened ScheduleText
  import opened ScheduleGrammar

  predicate Blank(s: string) {
    forall i :: 0 <= i < |s| ==> IsSpace(s[i])
  }

  /** An entry as it is laid out: what stands before it, and the blanks between its words. */
  datatype Laid = Laid(gap: string, t: Triple, before: string, behind: string)

  function Written(l: Laid, rest: string): string {
    l.t.time + (l.before + (l.t.days + (l.behind + (l.t.action + rest))))
  }

  function LaidOut(ls: seq<Laid>, tail: string): string
    decreases |ls|
  {
    if ls == [] then tail else ls[0].gap + Written(ls[0], LaidOut(ls[1..], tail))
  }

  predicate Proper(l: Laid) {
    Whole(l.t) && l.before != [] && Blank(l.before) && l.behind != [] && Blank(l.behind)
  }

  function TriplesOf(ls: seq<Laid>): (ts: seq<Triple>)
    ensures |ts| == |ls| && forall i :: 0 <= i < |ls| ==> ts[i] == ls[i].t
  {
    seq(|ls|, i requires 0 <= i < |ls| => ls[i].t)
  }

  function GapsOf(ls: seq<Laid>, tail: string): (gs: seq<string>)
    ensures |gs| == |ls| + 1 && gs[|ls|] == tail && forall i :: 0 <= i < |ls| ==> gs[i] == ls[i].gap
  {
    seq(|ls|, i requires 0 <= i < |ls| => ls[i].gap) + [tail]
  }

  /** What stands before, between and behind the entries of any text. */
  function Gaps(s: string): (gs: seq<string>)
    ensures |gs| == |Triples(s)| + 1
    decreases |s|
  {
    var r := SkipSeparators(s);
    var g := s[..|s| - |r|];
    if r == [] then [g] else [g] + Gaps(Rest(r))
  }

  /** Gaps that can stand there: any separators, at least one between two entries. */
  ghost predicate Parting(gs: seq<string>) {
    (forall i :: 0 <= i < |gs| ==> Separates(gs[i])) && forall i :: 0 < i < |gs| - 1 ==> gs[i] != []
  }

  // ---- a laid out text comes apart as it was laid out -----------------------

  lemma {:induction false} SkipBlank(b: string, s: string)
    requires Blank(b) && s != [] && InWord(s[0])
    ensures SkipSpaces(b + s) == s
    decreases |b|
  {
    if b == [] {
      assert b + s == s;
    } else {
      assert (b + s)[1..] == b[1..] + s;
      SkipBlank(b[1..], s);
    }
  }

  lemma BlankThenWord(b: string, w: string, rest: string)
    requires Blank(b) && b != [] && w != [] && AllWord(w) && Ends(rest)
    ensures SkipSpaces(b + (w + rest)) == w + rest && Ends(b + (w + rest))
    ensures Word(w + rest) == w && AfterWord(w + rest) == rest
  {
    WordIs(w, rest);
    assert InWord((w + rest)[0]);
    SkipBlank(b, w + rest);
  }

  lemma WrittenBack(l: Laid, rest: string)
    requires Proper(l) && Ends(rest)
    ensures var s := Written(l, rest); FirstTriple(s) == l.t && Rest(s) == rest && s != [] && InWord(s[0])
  {
    var s2 := l.behind + (l.t.action + rest);
    var s1 := l.before + (l.t.days + s2);
    BlankThenWord(l.behind, l.t.action, rest);
    BlankThenWord(l.before, l.t.days, s2);
    WordIs(l.t.time, s1);
  }

  lemma {:induction false} GapThenEntry(g: string, s: string)
    requires Separates(g) && (s != [] ==> InWord(s[0]))
    ensures SkipSeparators(g + s) == s && (g + s)[..|g|] == g
    decreases |g|
  {
    if g == [] {
      assert g + s == s;
    } else {
      assert (g + s)[1..] == g[1..] + s;
      GapThenEntry(g[1..], s);
    }
  }

  lemma OneEntryBack(g: string, s: string)
    requires Separates(g) && s != [] && InWord(s[0])
    ensures Triples(g + s) == [FirstTriple(s)] + Triples(Rest(s)) && Gaps(g + s) == [g] + Gaps(Rest(s))
  {
    GapThenEntry(g, s);
  }

  lemma TailBack(g: string)
    requires Separates(g)
    ensures Triples(g) == [] && Gaps(g) == [g]
  {
    GapThenEntry(g, "");
    assert g + "" == g && g[..|g|] == g;
  }

  lemma OneLaidBack(l: Laid, rest: string, text: string)
    requires Separates(l.gap) && Proper(l) && Ends(rest) && text == l.gap + Written(l, rest)
    ensures Triples(text) == [l.t] + Triples(rest) && Gaps(text) == [l.gap] + Gaps(rest)
  {
    WrittenBack(l, rest);
    OneEntryBack(l.gap, Written(l, rest));
  }

  predicate AllProper(ls: seq<Laid>) {
    forall i :: 0 <= i < |ls| ==> Proper(ls[i])
  }

  lemma {:induction false} LaidBack(ls: seq<Laid>, tail: string)
    requires AllProper(ls) && Parting(GapsOf(ls, tail))
    ensures Triples(LaidOut(ls, tail)) == TriplesOf(ls) && Gaps(LaidOut(ls, tail)) == GapsOf(ls, tail)
    decreases |ls|
  {
    if ls == [] {
      assert Separates(GapsOf(ls, tail)[0]);
      TailBack(tail);
    } else {
      FirstLaid(ls, tail);
      LaidBack(ls[1..], tail);
      OneLaidBack(ls[0], LaidOut(ls[1..], tail), LaidOut(ls, tail));
    }
  }

  lemma FirstLaid(ls: seq<Laid>, tail: string)
    requires ls != [] && Parting(GapsOf(ls, tail))
    ensures GapsOf(ls, tail) == [ls[0].gap] + GapsOf(ls[1..], tail) && TriplesOf(ls) == [ls[0].t] + TriplesOf(ls[1..])
    ensures Separates(ls[0].gap) && Parting(GapsOf(ls[1..], tail)) && Ends(LaidOut(ls[1..], tail))
  {
    var gs := GapsOf(ls, tail);
    assert gs == [ls[0].gap] + GapsOf(ls[1..], tail);
    FewerGaps(ls[0].gap, GapsOf(ls[1..], tail), gs);
    LaidEnds(ls, tail);
  }

  lemma FewerGaps(g: string, hs: seq<string>, gs: seq<string>)
    requires hs != [] && gs == [g] + hs && Parting(gs)
    ensures Separates(g) && Parting(hs)
  {
    assert gs[0] == g && gs[1..] == hs;
  }

  lemma LaidEnds(ls: seq<Laid>, tail: string)
    requires ls != [] && Parting(GapsOf(ls, tail))
    ensures Ends(LaidOut(ls[1..], tail))
  {
    var gs := GapsOf(ls, tail);
    assert Separates(gs[1]);
    if |ls| > 1 {
      assert gs[1] == ls[1].gap != [];
    }
  }

  // ---- every text of whole entries is laid out ------------------------------

  lemma {:induction false} WordStops(s: string)
    ensures s == Word(s) + AfterWord(s) && Ends(AfterWord(s))
    decreases |s|
  {
    if s != [] && InWord(s[0]) {
      WordStops(s[1..]);
      assert s == [s[0]] + s[1..];
      assert AfterWord(s) == AfterWord(s[1..]);
    }
  }

  lemma {:induction false} BlanksSkipped(s: string)
    ensures var b := s[..|s| - |SkipSpaces(s)|]; Blank(b) && s == b + SkipSpaces(s)
    decreases |s|
  {
    if s != [] && IsSpace(s[0]) {
      var n := |s| - |SkipSpaces(s)|;
      BlanksSkipped(s[1..]);
      assert s == [s[0]] + s[1..];
      assert s[..n] == [s[0]] + s[1..][..n - 1];
    }
  }

  /** The blanks before a word that is there are there too. */
  lemma BlanksBefore(s: string) returns (b: string)
    requires Ends(s) && Word(SkipSpaces(s)) != []
    ensures b != [] && Blank(b) && s == b + (Word(SkipSpaces(s)) + AfterWord(SkipSpaces(s)))
    ensures Ends(AfterWord(SkipSpaces(s)))
  {
    b := s[..|s| - |SkipSpaces(s)|];
    BlanksSkipped(s);
    WordStops(SkipSpaces(s));
    assert [] + SkipSpaces(s) == SkipSpaces(s);
  }

  lemma EntryIsWritten(s: string, gap: string) returns (l: Laid)
    requires s != [] && InWord(s[0]) && Whole(FirstTriple(s))
    ensures Proper(l) && l.gap == gap && l.t == FirstTriple(s) && s == Written(l, Rest(s)) && Ends(Rest(s))
  {
    WordStops(s);
    var before := BlanksBefore(AfterWord(s));
    var behind := BlanksBefore(AfterWord(ScheduleWords.Days(s)));
    l := Laid(gap, FirstTriple(s), before, behind);
  }

  lemma {:induction false} GapIsSkipped(s: string)
    ensures var g := s[..|s| - |SkipSeparators(s)|]; Separates(g) && s == g + SkipSeparators(s)
    decreases |s|
  {
    if s != [] && !InWord(s[0]) {
      var n := |s| - |SkipSeparators(s)|;
      GapIsSkipped(s[1..]);
      assert s == [s[0]] + s[1..];
      assert s[..n] == [s[0]] + s[1..][..n - 1];
    }
  }

  predicate AllWhole(ts: seq<Triple>) {
    forall i :: 0 <= i < |ts| ==> Whole(ts[i])
  }

  /** A text laid out so: its entries, what stands around them, and the text itself. */
  ghost predicate Lays(ls: seq<Laid>, tail: string, s: string) {
    && AllProper(ls) && Parting(GapsOf(ls, tail)) && s == LaidOut(ls, tail)
    && (ls != [] && Ends(s) ==> ls[0].gap != [])
  }

  lemma {:induction false} IsLaidOut(s: string) returns (ls: seq<Laid>, tail: string)
    requires AllWhole(Triples(s))
    ensures Lays(ls, tail, s)
    decreases |s|
  {
    var r := SkipSeparators(s);
    var g := s[..|s| - |r|];
    GapIsSkipped(s);
    if r == [] {
      ls, tail := [], g;
      assert g + r == g && GapsOf(ls, tail) == [g];
    } else {
      FewerWhole(FirstTriple(r), Triples(Rest(r)), Triples(s));
      var l := EntryIsWritten(r, g);
      var more, end := IsLaidOut(Rest(r));
      ls, tail := [l] + more, end;
      OneMoreLaid(l, more, end, Rest(r), s);
    }
  }

  lemma FewerWhole(t: Triple, more: seq<Triple>, ts: seq<Triple>)
    requires AllWhole(ts) && ts == [t] + more
    ensures Whole(t) && AllWhole(more)
  {
    assert ts[0] == t && ts[1..] == more;
  }

  lemma OneMoreLaid(l: Laid, more: seq<Laid>, tail: string, rest: string, s: string)
    requires Proper(l) && Separates(l.gap) && Lays(more, tail, rest) && Ends(rest)
    requires s == l.gap + Written(l, rest) && (s != [] && Ends(s) ==> l.gap != [])
    ensures Lays([l] + more, tail, s)
  {
    var ls, gs, hs := [l] + more, GapsOf([l] + more, tail), GapsOf(more, tail);
    assert ls[1..] == more && gs == [l.gap] + hs;
    forall i | 0 < i < |gs| - 1
      ensures gs[i] != []
    {
      assert gs[i] == hs[i - 1];
    }
  }

  // ---- the documented grammar of a text -------------------------------------

  /** One semicolon, and blanks on both sides of it. */
  ghost predicate SemicolonGap(g: string) {
    exists a, b :: Blank(a) && Blank(b) && g == a + (";" + b)
  }

  /** Blanks outside, a semicolon between neighbours. */
  ghost predicate DocumentedGaps(gs: seq<string>) {
    && |gs| > 0 && Blank(gs[0]) && Blank(gs[|gs| - 1])
    && forall i :: 0 < i < |gs| - 1 ==> SemicolonGap(gs[i])
  }

  ghost predicate AllDocumented(ts: seq<Triple>) {
    forall i :: 0 <= i < |ts| ==> Documented(ts[i])
  }

  /** The header's grammar: entries with a semicolon between them, blanks anywhere between
      words. */
  ghost predicate DocumentedText(text: string) {
    exists ls, tail :: DerivedAs(text, ls, tail)
  }

  ghost predicate DerivedAs(text: string, ls: seq<Laid>, tail: string) {
    && text == LaidOut(ls, tail) && AllProper(ls)
    && AllDocumented(TriplesOf(ls)) && DocumentedGaps(GapsOf(ls, tail))
  }

  /** How many semicolons stand in a gap. */
  function Semicolons(g: string): nat
    decreases |g|
  {
    if g == [] then 0 else (if g[0] == ';' then 1 else 0) + Semicolons(g[1..])
  }

  lemma {:induction false} NoneIffBlank(g: string)
    requires Separates(g)
    ensures Semicolons(g) == 0 <==> Blank(g)
    decreases |g|
  {
    if g != [] {
      NoneIffBlank(g[1..]);
      assert g == [g[0]] + g[1..];
    }
  }

  lemma {:induction false} OneIn(a: string, b: string)
    requires Blank(a) && Blank(b)
    ensures Semicolons(a + (";" + b)) == 1 && Separates(a + (";" + b))
    decreases |a|
  {
    if a == [] {
      NoneIffBlank(b);
      assert a + (";" + b) == ";" + b && (";" + b)[1..] == b;
    } else {
      OneIn(a[1..], b);
      assert (a + (";" + b))[1..] == a[1..] + (";" + b);
    }
  }

  lemma {:induction false} SplitAtOne(g: string) returns (a: string, b: string)
    requires Separates(g) && Semicolons(g) == 1
    ensures Blank(a) && Blank(b) && g == a + (";" + b)
    decreases |g|
  {
    assert g == [g[0]] + g[1..];
    if g[0] == ';' {
      NoneIffBlank(g[1..]);
      a, b := "", g[1..];
    } else {
      var c;
      c, b := SplitAtOne(g[1..]);
      a := [g[0]] + c;
    }
  }

  lemma OneIffSemicolonGap(g: string)
    requires Separates(g)
    ensures Semicolons(g) == 1 <==> SemicolonGap(g)
  {
    if Semicolons(g) == 1 {
      var a, b := SplitAtOne(g);
    }
    forall a, b | Blank(a) && Blank(b) && g == a + (";" + b)
      ensures Semicolons(g) == 1
    {
      OneIn(a, b);
    }
  }

  /** None before the first entry and behind the last, one between neighbours. */
  predicate OneBetween(gs: seq<string>) {
    forall i :: 0 <= i < |gs| ==> Semicolons(gs[i]) == if 0 < i < |gs| - 1 then 1 else 0
  }

  lemma OneBetweenIff(gs: seq<string>)
    requires gs != [] && Parting(gs)
    ensures OneBetween(gs) <==> DocumentedGaps(gs)
  {
    forall i | 0 <= i < |gs|
      ensures Semicolons(gs[i]) == 0 <==> Blank(gs[i])
      ensures Semicolons(gs[i]) == 1 <==> SemicolonGap(gs[i])
    {
      NoneIffBlank(gs[i]);
      OneIffSemicolonGap(gs[i]);
    }
  }

  lemma DocumentedGapsPart(gs: seq<string>)
    requires DocumentedGaps(gs)
    ensures Parting(gs)
  {
    forall i | 0 < i < |gs| - 1
      ensures Separates(gs[i]) && gs[i] != []
    {
      var a, b :| Blank(a) && Blank(b) && gs[i] == a + (";" + b);
      OneIn(a, b);
    }
  }

  lemma {:induction false} WordsOfText(s: string)
    ensures forall i :: 0 <= i < |Triples(s)| ==>
              var t := Triples(s)[i]; t.time != [] && AllWord(t.time) && AllWord(t.days) && AllWord(t.action)
    decreases |s|
  {
    var r := SkipSeparators(s);
    if r != [] {
      WordsOfText(Rest(r));
    }
  }

  lemma DocumentedAreWhole(s: string)
    requires AllDocumented(Triples(s))
    ensures AllWhole(Triples(s))
  {
    WordsOfText(s);
    forall i | 0 <= i < |Triples(s)|
      ensures Whole(Triples(s)[i])
    {
      DocumentedIsReadable(Triples(s)[i]);
      var e :| Spells(Triples(s)[i], e);
      NeverEmpty(Triples(s)[i].days, e.dayMask, 0, 0);
      NeverEmpty(Triples(s)[i].action, NoDay(), e.action, e.positionPct);
    }
  }

  lemma DerivedIsRead(text: string, ls: seq<Laid>, tail: string)
    requires DerivedAs(text, ls, tail)
    ensures AllDocumented(Triples(text)) && OneBetween(Gaps(text))
  {
    DocumentedGapsPart(GapsOf(ls, tail));
    LaidBack(ls, tail);
    OneBetweenIff(GapsOf(ls, tail));
  }

  lemma ReadIsDerived(text: string)
    requires AllDocumented(Triples(text)) && OneBetween(Gaps(text))
    ensures DocumentedText(text)
  {
    DocumentedAreWhole(text);
    var ls, tail := IsLaidOut(text);
    LaidBack(ls, tail);
    OneBetweenIff(GapsOf(ls, tail));
    assert DerivedAs(text, ls, tail);
  }

  /** Any text at all is one the header documents exactly when each of its entries is and
      exactly one semicolon stands between neighbours, and none anywhere else. */
  lemma DocumentedTextIff(text: string)
    ensures DocumentedText(text) <==> AllDocumented(Triples(text)) && OneBetween(Gaps(text))
  {
    if DocumentedText(text) {
      var ls, tail :| DerivedAs(text, ls, tail);
      DerivedIsRead(text, ls, tail);
    }
    if AllDocumented(Triples(text)) && OneBetween(Gaps(text)) {
      ReadIsDerived(text);
    }
  }

  /** A documented text is accepted exactly when it has at most eight entries. */
  lemma DocumentedAcceptedIff(text: string)
    requires DocumentedText(text)
    ensures Parsed(text).ok <==> |Triples(text)| <= MAX_ENTRIES
  {
    DocumentedTextIff(text);
    AcceptedIff(text, Triples(text));
    forall i | 0 <= i < |Triples(text)|
      ensures Readable(Triples(text)[i])
    {
      DocumentedIsReadable(Triples(text)[i]);
    }
  }
}
