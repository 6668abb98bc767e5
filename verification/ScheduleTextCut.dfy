/**
 What a schedule printed into a short buffer reads back as (ScheduleText.h): exactly when
 the cut text is accepted, with which entries, and when it is the schedule itself.
 */
module ScheduleTextCut {
  import opened Machine
  import opened ScheduleWords
  import opened ScheduleText
  import opened ScheduleTextLaws
  import opened ScheduleTextRoom
  import opened ScheduleGrammar
  import opened ScheduleCutSizes
  import opened ScheduleEntryCut

  // ---- separators and entries of a cut text ---------------------------------

  lemma SeparatorsOnly(k: nat)
    requires k <= 2
    ensures Triples("; "[..k]) == []
  {
    assert "; "[..k] == "" || "; "[..k] == ";" || "; "[..k] == "; ";
    assert ";"[1..] == "" && "; "[1..] == " " && " "[1..] == "";
    assert SkipSeparators("") == "" && SkipSeparators(" ") == "";
    assert SkipSeparators(";") == "" && SkipSeparators("; ") == "";
  }

  lemma LeftoverEnds(es: seq<Entry>, room: nat)
    ensures Ends(Fill(Pieces(es, false), room))
  {
  }

  /** The separator's part of the room. */
  lemma AfterSeparator(es: seq<Entry>, first: bool, room: nat)
    requires es != []
    ensures var body := EntryPieces(es[0]) + Pieces(es[1..], false);
            var s := Fill(Pieces(es, first), room);
            if room <= Sep(first) then s == (if first then "" else "; "[..room])
            else s == (if first then "" else "; ") + Fill(body, room - Sep(first))
  {
    var body := EntryPieces(es[0]) + Pieces(es[1..], false);
    OnePiece("; ");
    if first {
      assert [] + body == body;
      NoRoomNoText(body);
    } else if room < 2 {
      FillCut([Put("; ")], body, room);
    } else {
      FillWhole([Put("; ")], body, room);
      NoRoomNoText(body);
    }
  }

  lemma BehindSeparator(es: seq<Entry>, first: bool, room: nat)
    requires es != [] && room > Sep(first)
    ensures Fill(Pieces(es, first), room)
         == (if first then "" else "; ") + Fill(EntryPieces(es[0]) + Pieces(es[1..], false), room - Sep(first))
    ensures Ends(Fill(Pieces(es[1..], false), 1))
  {
    AfterSeparator(es, first, room);
    LeftoverEnds(es[1..], 1);
  }

  lemma TriplesAfterSeparator(s: string, first: bool)
    requires s != [] && InWord(s[0])
    ensures Triples((if first then "" else "; ") + s) == [FirstTriple(s)] + Triples(Rest(s))
  {
    SkipOneSeparator(s);
    assert "" + s == s;
  }

  lemma TripleAfterSeparator(t: Triple, rest: string, first: bool)
    requires Whole(t) && Ends(rest)
    ensures Triples((if first then "" else "; ") + (Spelled(t) + rest)) == [t] + Triples(rest)
  {
    TripleBack(t, rest);
    TriplesAfterSeparator(Spelled(t) + rest, first);
  }

  /** An entry that fits is printed, and what fits of the rest after it. */
  lemma WholeIsPrinted(es: seq<Entry>, first: bool, room: nat)
    requires es != [] && Accepted(es[0]) && room >= Sep(first) + Size(es[0])
    ensures Fill(Pieces(es, first), room)
         == (if first then "" else "; ")
            + (Spelled(TripleOf(es[0])) + Fill(Pieces(es[1..], false), room - Sep(first) - Size(es[0])))
  {
    HasRoom(es[0], first, room);
    BehindSeparator(es, first, room);
    FirstFits(es[0], Pieces(es[1..], false), room - Sep(first));
  }

  lemma HasRoom(e: Entry, first: bool, room: nat)
    requires Accepted(e) && room >= Sep(first) + Size(e)
    ensures room > Sep(first)
  {
    EntrySize(e);
  }

  lemma FirstFits(e: Entry, rest: seq<Piece>, room: nat)
    requires Accepted(e) && room >= Size(e)
    ensures Fill(EntryPieces(e) + rest, room) == Spelled(TripleOf(e)) + Fill(rest, room - Size(e))
  {
    FillWhole(EntryPieces(e), rest, room);
    EntryIsSpelled(e);
  }

  /** An entry that fits is read, and the rest after it. */
  lemma WholeThenRest(es: seq<Entry>, first: bool, room: nat)
    requires es != [] && Accepted(es[0]) && room >= Sep(first) + Size(es[0])
    ensures Triples(Fill(Pieces(es, first), room))
         == [TripleOf(es[0])] + Triples(Fill(Pieces(es[1..], false), room - Sep(first) - Size(es[0])))
  {
    var rest := Fill(Pieces(es[1..], false), room - Sep(first) - Size(es[0]));
    WholeIsPrinted(es, first, room);
    EntryBack(es[0]);
    LeftoverEnds(es[1..], room - Sep(first) - Size(es[0]));
    TripleAfterSeparator(TripleOf(es[0]), rest, first);
  }

  lemma BadAfterSeparator(s: string, first: bool)
    requires s != [] && InWord(s[0]) && ReadEntry(FirstTriple(s)).Bad?
    ensures var ts := Triples((if first then "" else "; ") + s); ts != [] && ReadEntry(ts[0]).Bad?
  {
    TriplesAfterSeparator(s, first);
  }

  lemma OnlyTriple(s: string, t: Triple, first: bool)
    requires s != [] && InWord(s[0]) && FirstTriple(s) == t && Rest(s) == ""
    ensures Triples((if first then "" else "; ") + s) == [t]
  {
    TriplesAfterSeparator(s, first);
    assert Triples("") == [];
  }

  /** A schedule cut in an entry: refused there, or read to the end with what is left of 100. */
  lemma CutIsBad(es: seq<Entry>, first: bool, room: nat, text: string)
    requires es != [] && Accepted(es[0]) && Sep(first) < room < Sep(first) + Size(es[0])
    requires !InPercent(es[0], Sep(first) + Size(es[0]) - room) && text == Fill(Pieces(es, first), room)
    ensures var ts := Triples(text); ts != [] && ReadEntry(ts[0]).Bad?
  {
    BehindSeparator(es, first, room);
    BadThere(es[0], Pieces(es[1..], false), room - Sep(first), first, text);
  }

  lemma BadThere(e: Entry, rest: seq<Piece>, room: nat, first: bool, text: string)
    requires Accepted(e) && 0 < room < Size(e) && !InPercent(e, Size(e) - room) && Ends(Fill(rest, 1))
    requires text == (if first then "" else "; ") + Fill(EntryPieces(e) + rest, room)
    ensures var ts := Triples(text); ts != [] && ReadEntry(ts[0]).Bad?
  {
    EntryCutIsBad(e, rest, room);
    BadAfterSeparator(Fill(EntryPieces(e) + rest, room), first);
  }

  lemma CutIsPercent(es: seq<Entry>, first: bool, room: nat, t: Triple)
    requires es != [] && Accepted(es[0]) && Sep(first) < room < Sep(first) + Size(es[0])
    requires InPercent(es[0], Sep(first) + Size(es[0]) - room)
    requires t == TripleOf(CutPercent(es[0], Sep(first) + Size(es[0]) - room))
    ensures Triples(Fill(Pieces(es, first), room)) == [t]
  {
    var rest := Pieces(es[1..], false);
    BehindSeparator(es, first, room);
    PercentAlone(es[0], rest, room - Sep(first), t);
    OnlyTriple(Fill(EntryPieces(es[0]) + rest, room - Sep(first)), t, first);
  }

  lemma PercentAlone(e: Entry, rest: seq<Piece>, room: nat, t: Triple)
    requires Accepted(e) && 0 < room < Size(e) && InPercent(e, Size(e) - room)
    requires t == TripleOf(CutPercent(e, Size(e) - room)) && Ends(Fill(rest, 1))
    ensures var s := Fill(EntryPieces(e) + rest, room);
            s != [] && InWord(s[0]) && FirstTriple(s) == t && Rest(s) == ""
  {
    EntryCutIsPercent(e, rest, room);
  }

  // ---- the words of a cut text ----------------------------------------------

  function BoxOf(e: Entry): Box {
    Box(Size(e), IsHundred(e))
  }

  function Boxes(es: seq<Entry>): (bs: seq<Box>)
    ensures |bs| == |es| && forall i :: 0 <= i < |es| ==> bs[i] == BoxOf(es[i])
  {
    seq(|es|, i requires 0 <= i < |es| => BoxOf(es[i]))
  }

  predicate AllAccepted(es: seq<Entry>) {
    forall i :: 0 <= i < |es| ==> Accepted(es[i])
  }

  lemma BoxesAreSized(es: seq<Entry>)
    requires AllAccepted(es)
    ensures Sized(Boxes(es))
  {
    forall i | 0 <= i < |es|
      ensures Boxes(es)[i].size > 4
    {
      EntrySize(es[i]);
    }
  }

  predicate Fits(es: seq<Entry>, c: Cut) {
    (c.Between? ==> c.k <= |es|) && (c.InHundred? ==> c.k < |es|)
  }

  /** The entries a readable cut leaves. */
  function Kept(es: seq<Entry>, c: Cut): seq<Entry>
    requires Fits(es, c)
  {
    match c
    case Nowhere => es
    case Between(k) => es[..k]
    case InHundred(k, missing) => es[..k] + [CutPercent(es[k], missing)]
    case Unreadable => []
  }

  lemma OneMoreKept(es: seq<Entry>, c: Cut)
    requires es != [] && Fits(es[1..], c) && !c.Unreadable?
    ensures Fits(es, Later(c)) && Kept(es, Later(c)) == [es[0]] + Kept(es[1..], c)
  {
    match c
    case Nowhere => assert es == [es[0]] + es[1..];
    case Between(k) => assert es[..k + 1] == [es[0]] + es[1..][..k];
    case InHundred(k, missing) =>
      assert es[..k + 1] == [es[0]] + es[1..][..k] && es[k + 1] == es[1..][k];
  }

  function AllRead(es: seq<Entry>): (rs: seq<Res<Entry>>)
    ensures |rs| == |es| && forall i :: 0 <= i < |es| ==> rs[i] == Ok(es[i])
  {
    seq(|es|, i requires 0 <= i < |es| => Ok(es[i]))
  }

  /** What is read of a text cut at c: exactly the entries kept, or something refused. */
  ghost predicate ReadsFor(rs: seq<Res<Entry>>, es: seq<Entry>, c: Cut) {
    Fits(es, c)
    && if c.Unreadable? then exists i :: 0 <= i < |rs| && rs[i].Bad? else rs == AllRead(Kept(es, c))
  }

  lemma OneMoreRead(es: seq<Entry>, rs: seq<Res<Entry>>, c: Cut)
    requires es != [] && ReadsFor(rs, es[1..], c)
    ensures ReadsFor([Ok(es[0])] + rs, es, Later(c))
  {
    if c.Unreadable? {
      OneMoreRefused(rs, es[0]);
    } else {
      OneMoreKept(es, c);
      OneMoreAllRead(es[0], Kept(es[1..], c));
    }
  }

  lemma OneMoreRefused(rs: seq<Res<Entry>>, e: Entry)
    requires exists i :: 0 <= i < |rs| && rs[i].Bad?
    ensures var ss := [Ok(e)] + rs; exists i :: 0 <= i < |ss| && ss[i].Bad?
  {
    var i :| 0 <= i < |rs| && rs[i].Bad?;
    assert ([Ok(e)] + rs)[i + 1].Bad?;
  }

  lemma OneMoreAllRead(e: Entry, es: seq<Entry>)
    ensures AllRead([e] + es) == [Ok(e)] + AllRead(es)
  {
  }

  /** Where the text of a schedule is cut, one entry at a time. */
  lemma CutStep(es: seq<Entry>, first: bool, room: nat)
    requires es != []
    ensures var c, size := CutAt(Boxes(es), first, room), Size(es[0]);
            if room <= Sep(first) then c == Between(0)
            else if room >= Sep(first) + size then c == Later(CutAt(Boxes(es[1..]), false, room - Sep(first) - size))
            else if InPercent(es[0], Sep(first) + size - room) then c == InHundred(0, Sep(first) + size - room)
            else c == Unreadable
  {
    assert Boxes(es)[1..] == Boxes(es[1..]);
  }

  /** What is read of a schedule's text in so much room. */
  type Reader = (seq<Entry>, bool, nat) -> seq<Res<Entry>>

  /** A reader that goes with the printer, one entry at a time. */
  ghost predicate Steps(f: Reader, es: seq<Entry>, first: bool, room: nat) {
    if es == [] || room <= Sep(first) then f(es, first, room) == []
    else
      var missing := Sep(first) + Size(es[0]) - room;
      if missing <= 0 then f(es, first, room) == [Ok(es[0])] + f(es[1..], false, -missing)
      else if InPercent(es[0], missing) then f(es, first, room) == [Ok(CutPercent(es[0], missing))]
      else f(es, first, room) != [] && f(es, first, room)[0].Bad?
  }

  lemma NoneRead(es: seq<Entry>, first: bool, room: nat)
    requires es == [] || room <= Sep(first)
    ensures ReadsFor([], es, CutAt(Boxes(es), first, room))
  {
    assert AllRead([]) == [];
    if es != [] {
      CutStep(es, first, room);
    }
  }

  lemma WholeRead(rs: seq<Res<Entry>>, es: seq<Entry>, first: bool, room: nat)
    requires es != [] && room >= Sep(first) + Size(es[0]) && room > Sep(first)
    requires ReadsFor(rs, es[1..], CutAt(Boxes(es[1..]), false, room - Sep(first) - Size(es[0])))
    ensures ReadsFor([Ok(es[0])] + rs, es, CutAt(Boxes(es), first, room))
  {
    CutStep(es, first, room);
    OneMoreRead(es, rs, CutAt(Boxes(es[1..]), false, room - Sep(first) - Size(es[0])));
  }

  lemma PercentRead(es: seq<Entry>, first: bool, room: nat, f: Entry)
    requires es != [] && Sep(first) < room < Sep(first) + Size(es[0])
    requires InPercent(es[0], Sep(first) + Size(es[0]) - room)
    requires f == CutPercent(es[0], Sep(first) + Size(es[0]) - room)
    ensures ReadsFor([Ok(f)], es, CutAt(Boxes(es), first, room))
  {
    CutStep(es, first, room);
    assert es[..0] + [f] == [f];
    assert AllRead([f]) == [Ok(f)];
  }

  lemma RefusedRead(rs: seq<Res<Entry>>, es: seq<Entry>, first: bool, room: nat)
    requires es != [] && Sep(first) < room < Sep(first) + Size(es[0]) && rs != [] && rs[0].Bad?
    requires !InPercent(es[0], Sep(first) + Size(es[0]) - room)
    ensures ReadsFor(rs, es, CutAt(Boxes(es), first, room))
  {
    CutStep(es, first, room);
  }

  lemma {:induction false} ReaderReadsKept(f: Reader, es: seq<Entry>, first: bool, room: nat)
    requires AllAccepted(es) && forall fs, s, r | AllAccepted(fs) :: Steps(f, fs, s, r)
    ensures ReadsFor(f(es, first, room), es, CutAt(Boxes(es), first, room))
    decreases |es|
  {
    assert Steps(f, es, first, room);
    if es == [] || room <= Sep(first) {
      NoneRead(es, first, room);
    } else {
      var missing := Sep(first) + Size(es[0]) - room;
      if missing <= 0 {
        ReaderReadsKept(f, es[1..], false, room - Sep(first) - Size(es[0]));
        WholeRead(f(es[1..], false, room - Sep(first) - Size(es[0])), es, first, room);
      } else if InPercent(es[0], missing) {
        PercentRead(es, first, room, CutPercent(es[0], missing));
      } else {
        RefusedRead(f(es, first, room), es, first, room);
      }
    }
  }

  function ReadOf(es: seq<Entry>, first: bool, room: nat): seq<Res<Entry>> {
    ReadEach(Triples(Fill(Pieces(es, first), room)))
  }

  lemma NothingLeft(es: seq<Entry>, first: bool, room: nat)
    requires es == [] || room <= Sep(first)
    ensures ReadOf(es, first, room) == []
  {
    if es != [] {
      AfterSeparator(es, first, room);
      SeparatorsOnly(if first then 0 else room);
    }
    assert Triples("") == [];
  }

  lemma ReadsOn(t: Triple, e: Entry, more: seq<Triple>)
    requires ReadEntry(t) == Ok(e)
    ensures ReadEach([t] + more) == [Ok(e)] + ReadEach(more)
  {
  }

  lemma WholeIsRead(es: seq<Entry>, first: bool, room: nat)
    requires es != [] && Accepted(es[0]) && room >= Sep(first) + Size(es[0])
    ensures ReadOf(es, first, room) == [Ok(es[0])] + ReadOf(es[1..], false, room - Sep(first) - Size(es[0]))
  {
    WholeThenRest(es, first, room);
    EntryBack(es[0]);
    ReadsOn(TripleOf(es[0]), es[0], Triples(Fill(Pieces(es[1..], false), room - Sep(first) - Size(es[0]))));
  }

  lemma PercentIsRead(es: seq<Entry>, first: bool, room: nat, f: Entry)
    requires es != [] && Accepted(es[0]) && Sep(first) < room < Sep(first) + Size(es[0])
    requires InPercent(es[0], Sep(first) + Size(es[0]) - room)
    requires f == CutPercent(es[0], Sep(first) + Size(es[0]) - room)
    ensures ReadOf(es, first, room) == [Ok(f)]
  {
    CutIsPercent(es, first, room, TripleOf(f));
    EntryBack(f);
    ReadsOn(TripleOf(f), f, []);
    assert [TripleOf(f)] + [] == [TripleOf(f)];
  }

  lemma RestIsRefused(es: seq<Entry>, first: bool, room: nat)
    requires es != [] && Accepted(es[0]) && Sep(first) < room < Sep(first) + Size(es[0])
    requires !InPercent(es[0], Sep(first) + Size(es[0]) - room)
    ensures ReadOf(es, first, room) != [] && ReadOf(es, first, room)[0].Bad?
  {
    CutIsBad(es, first, room, Fill(Pieces(es, first), room));
  }

  lemma ReadOfSteps(f: Reader, es: seq<Entry>, first: bool, room: nat)
    requires AllAccepted(es) && forall fs, s, r :: f(fs, s, r) == ReadOf(fs, s, r)
    ensures Steps(f, es, first, room)
  {
    if es == [] || room <= Sep(first) {
      NothingLeft(es, first, room);
    } else {
      var missing := Sep(first) + Size(es[0]) - room;
      if missing <= 0 {
        EntrySize(es[0]);
        WholeIsRead(es, first, room);
      } else if InPercent(es[0], missing) {
        PercentIsRead(es, first, room, CutPercent(es[0], missing));
      } else {
        RestIsRefused(es, first, room);
      }
    }
  }

  /** What is read of any schedule's text in any room. */
  lemma CutIsRead(es: seq<Entry>, room: nat)
    requires AllAccepted(es)
    ensures ReadsFor(ReadOf(es, true, room), es, CutAt(Boxes(es), true, room))
  {
    var f: Reader := (es: seq<Entry>, first: bool, room: nat) => ReadOf(es, first, room);
    forall fs, s, r | AllAccepted(fs)
      ensures Steps(f, fs, s, r)
    {
      ReadOfSteps(f, fs, s, r);
    }
    ReaderReadsKept(f, es, true, room);
  }

  // ---- what a cut text means ------------------------------------------------

  /** The text printed into a buffer with room for so many characters and the terminator. */
  function Echo(es: seq<Entry>, room: nat): string {
    Render("", Pieces(es, true), room + 1)
  }

  /** A text cut at c means exactly the entries kept, or is refused. */
  predicate Says(p: ParseResult, es: seq<Entry>, c: Cut) {
    Fits(es, c) && if c.Unreadable? then !p.ok else p == ParseResult(true, Kept(es, c), "")
  }

  lemma CollectSays(rs: seq<Res<Entry>>, es: seq<Entry>, c: Cut)
    requires ReadsFor(rs, es, c) && (!c.Unreadable? ==> |Kept(es, c)| <= MAX_ENTRIES)
    ensures Says(Collect(rs, []), es, c)
  {
    if c.Unreadable? {
      CollectIff(rs, [], []);
    } else {
      CollectAll(rs, Kept(es, c), []);
      assert [] + Kept(es, c) == Kept(es, c);
    }
  }

  lemma KeptFits(es: seq<Entry>, room: nat)
    ensures var c := CutAt(Boxes(es), true, room); Fits(es, c) && |Kept(es, c)| <= |es|
  {
    CutInside(Boxes(es), true, room);
  }

  lemma EchoIsFill(es: seq<Entry>, room: nat)
    ensures Echo(es, room) == Fill(Pieces(es, true), room)
  {
    RenderIsFill("", Pieces(es, true), room + 1);
    assert "" + Fill(Pieces(es, true), room) == Fill(Pieces(es, true), room);
  }

  lemma {:induction false} UptoIsLength(es: seq<Entry>, first: bool, j: nat)
    requires j <= |es|
    ensures Upto(Boxes(es), first, j) == |Cat(Pieces(es[..j], first))|
    decreases j
  {
    if j > 0 {
      var fs := es[..j];
      assert fs[1..] == es[1..][..j - 1];
      assert Boxes(es)[1..] == Boxes(es[1..]);
      FirstText(if first then [] else [Put("; ")], EntryPieces(fs[0]), Pieces(fs[1..], false));
      OnePiece("; ");
      UptoIsLength(es[1..], false, j - 1);
    }
  }

  lemma WholeText(es: seq<Entry>)
    ensures Upto(Boxes(es), true, |es|) == |Text(es)|
  {
    UptoIsLength(es, true, |es|);
    assert es[..|es|] == es;
  }

  // What a reading of a text cut to so much room comes to, before the text is put in.

  lemma CollectKept(rs: seq<Res<Entry>>, es: seq<Entry>, c: Cut, fs: seq<Entry>)
    requires ReadsFor(rs, es, c) && !c.Unreadable? && fs == Kept(es, c) && |fs| <= MAX_ENTRIES
    ensures Collect(rs, []) == ParseResult(true, fs, "")
  {
    CollectSays(rs, es, c);
  }

  lemma CollectAcceptedIff(rs: seq<Res<Entry>>, es: seq<Entry>, room: nat)
    requires WellFormed(es) && room < |Text(es)| && ReadsFor(rs, es, CutAt(Boxes(es), true, room))
    ensures Collect(rs, []).ok <==> CutBetween(Boxes(es), room) || CutInHundred(Boxes(es), room)
  {
    KeptFits(es, room);
    CollectSays(rs, es, CutAt(Boxes(es), true, room));
    BoxesAreSized(es);
    WholeText(es);
    NowhereIff(Boxes(es), true, room);
    ReadableCutIff(Boxes(es), room);
  }

  lemma CutIsAnother(es: seq<Entry>, c: Cut)
    requires Fits(es, c) && !c.Nowhere? && !c.Unreadable?
    requires (c.Between? ==> c.k < |es|) && (c.InHundred? ==> IsHundred(es[c.k]))
    ensures Kept(es, c) != es
  {
    if c.InHundred? {
      assert Kept(es, c)[c.k].positionPct != es[c.k].positionPct;
    }
  }

  lemma CollectAllIffWhole(rs: seq<Res<Entry>>, es: seq<Entry>, room: nat)
    requires WellFormed(es) && ReadsFor(rs, es, CutAt(Boxes(es), true, room))
    ensures Collect(rs, []) == ParseResult(true, es, "") <==> |Text(es)| <= room
  {
    var c := CutAt(Boxes(es), true, room);
    KeptFits(es, room);
    CollectSays(rs, es, c);
    BoxesAreSized(es);
    WholeText(es);
    NowhereIff(Boxes(es), true, room);
    CutInside(Boxes(es), true, room);
    if !c.Nowhere? && !c.Unreadable? {
      CutIsAnother(es, c);
    }
  }

  lemma CollectDropped(rs: seq<Res<Entry>>, es: seq<Entry>, room: nat, j: nat)
    requires WellFormed(es) && EndsBetween(Boxes(es), true, room, j)
    requires ReadsFor(rs, es, CutAt(Boxes(es), true, room))
    ensures Collect(rs, []) == ParseResult(true, es[..j], "")
  {
    BoxesAreSized(es);
    BetweenIff(Boxes(es), true, room, j);
    CollectKept(rs, es, Between(j), es[..j]);
  }

  lemma HundredIsCut(es: seq<Entry>, room: nat, j: nat, missing: nat)
    requires WellFormed(es) && EndsInHundred(Boxes(es), true, room, j)
    requires missing == Upto(Boxes(es), true, j + 1) - room
    ensures CutAt(Boxes(es), true, room) == InHundred(j, missing)
  {
    BoxesAreSized(es);
    InHundredIff(Boxes(es), true, room, j);
  }

  lemma CollectCutHundred(rs: seq<Res<Entry>>, es: seq<Entry>, j: nat, missing: nat)
    requires WellFormed(es) && j < |es| && ReadsFor(rs, es, InHundred(j, missing))
    ensures Collect(rs, []) == ParseResult(true, es[..j] + [CutPercent(es[j], missing)], "")
  {
    CollectKept(rs, es, InHundred(j, missing), es[..j] + [CutPercent(es[j], missing)]);
  }

  lemma HundredCollected(rs: seq<Res<Entry>>, es: seq<Entry>, room: nat, j: nat, missing: nat)
    requires WellFormed(es) && EndsInHundred(Boxes(es), true, room, j)
    requires missing == Upto(Boxes(es), true, j + 1) - room && ReadsFor(rs, es, CutAt(Boxes(es), true, room))
    ensures Collect(rs, []) == ParseResult(true, es[..j] + [CutPercent(es[j], missing)], "")
  {
    HundredIsCut(es, room, j, missing);
    CollectCutHundred(rs, es, j, missing);
  }

  // ---- main results ---------------------------------------------------------

  lemma ReadAllIff(text: string, es: seq<Entry>, room: nat)
    requires WellFormed(es) && text == Fill(Pieces(es, true), room)
    ensures Parsed(text) == ParseResult(true, es, "") <==> |Text(es)| <= room
  {
    CutIsRead(es, room);
    CollectAllIffWhole(ReadOf(es, true, room), es, room);
  }

  /** Exactly when the printed text reads back as the schedule: when it is whole. */
  lemma ReadsBackIffWhole(es: seq<Entry>, room: nat)
    requires WellFormed(es)
    ensures Parsed(Echo(es, room)) == ParseResult(true, es, "") <==> |Text(es)| <= room
  {
    EchoIsFill(es, room);
    ReadAllIff(Echo(es, room), es, room);
  }

  lemma AcceptedIff(text: string, es: seq<Entry>, room: nat)
    requires WellFormed(es) && room < |Text(es)| && text == Fill(Pieces(es, true), room)
    ensures Parsed(text).ok <==> CutBetween(Boxes(es), room) || CutInHundred(Boxes(es), room)
  {
    CutIsRead(es, room);
    CollectAcceptedIff(ReadOf(es, true, room), es, room);
  }

  /** Exactly when a text that does not fit is accepted: cut between entries, or in a
      percentage 100. */
  lemma CutAcceptedIff(es: seq<Entry>, room: nat)
    requires WellFormed(es) && room < |Text(es)|
    ensures Parsed(Echo(es, room)).ok <==> CutBetween(Boxes(es), room) || CutInHundred(Boxes(es), room)
  {
    EchoIsFill(es, room);
    AcceptedIff(Echo(es, room), es, room);
  }

  lemma ReadWithoutTheRest(text: string, es: seq<Entry>, room: nat, j: nat)
    requires WellFormed(es) && EndsBetween(Boxes(es), true, room, j) && text == Fill(Pieces(es, true), room)
    ensures Parsed(text) == ParseResult(true, es[..j], "")
  {
    CutIsRead(es, room);
    CollectDropped(ReadOf(es, true, room), es, room, j);
  }

  /** A buffer that ends between entries drops every later entry without a word. */
  lemma DroppedEntriesMislead(es: seq<Entry>, room: nat, j: nat)
    requires WellFormed(es) && EndsBetween(Boxes(es), true, room, j)
    ensures Parsed(Echo(es, room)) == ParseResult(true, es[..j], "")
  {
    EchoIsFill(es, room);
    ReadWithoutTheRest(Echo(es, room), es, room, j);
  }

  lemma ReadWithCutHundred(text: string, es: seq<Entry>, room: nat, j: nat, missing: nat)
    requires WellFormed(es) && EndsInHundred(Boxes(es), true, room, j) && text == Fill(Pieces(es, true), room)
    requires missing == Upto(Boxes(es), true, j + 1) - room
    ensures Parsed(text) == ParseResult(true, es[..j] + [CutPercent(es[j], missing)], "")
  {
    CutIsRead(es, room);
    HundredCollected(ReadOf(es, true, room), es, room, j, missing);
  }

  /** A buffer that ends in the percentage 100 of an entry changes it to 1 or 10, and drops
      every later entry. */
  lemma CutHundredMisleads(es: seq<Entry>, room: nat, j: nat, missing: nat)
    requires WellFormed(es) && EndsInHundred(Boxes(es), true, room, j)
    requires missing == Upto(Boxes(es), true, j + 1) - room
    ensures Parsed(Echo(es, room)) == ParseResult(true, es[..j] + [CutPercent(es[j], missing)], "")
  {
    EchoIsFill(es, room);
    ReadWithCutHundred(Echo(es, room), es, room, j, missing);
  }
}
