/**
 The lexical half of the schedule text (ScheduleText.h): where entries and their three
 words begin and end, and that words put together come apart again.
 */
module ScheduleWords {

  function Lower(c: char): char {
    if 'A' <= c <= 'Z' then c - 'A' + 'a' else c
  }

  predicate IsSpace(c: char) {
    c == ' ' || c == '\t' || c == '\r' || c == '\n'
  }

  predicate IsDigit(c: char) {
    '0' <= c <= '9'
  }

  function DigitOf(c: char): nat
    requires IsDigit(c)
  {
    c as int - '0' as int
  }

  predicate InWord(c: char) {
    !IsSpace(c) && c != ';'
  }

  predicate AllWord(s: string) {
    forall i :: 0 <= i < |s| ==> InWord(s[i])
  }

  /** A C string in memory: its characters, then the terminator. */
  predicate CString(text: string) {
    |text| > 0 && text[|text| - 1] == '\0' && '\0' !in text[..|text| - 1]
  }

  function SkipSpaces(s: string): (r: string)
    ensures |r| <= |s|
    decreases |s|
  {
    if s != [] && IsSpace(s[0]) then SkipSpaces(s[1..]) else s
  }

  /** Spaces and semicolons alike stand between entries. */
  function SkipSeparators(s: string): (r: string)
    ensures |r| <= |s| && (r != [] ==> InWord(r[0]))
    decreases |s|
  {
    if s != [] && !InWord(s[0]) then SkipSeparators(s[1..]) else s
  }

  function Word(s: string): (w: string)
    ensures |w| <= |s| && AllWord(w)
    ensures s != [] && InWord(s[0]) ==> |w| > 0
    decreases |s|
  {
    if s != [] && InWord(s[0]) then [s[0]] + Word(s[1..]) else []
  }

  function AfterWord(s: string): (r: string)
    ensures |r| == |s| - |Word(s)|
  {
    s[|Word(s)|..]
  }

  /** The three words of an entry as they stand; a missing one is empty. */
  datatype Triple = Triple(time: string, days: string, action: string)

  function Days(s: string): string {
    SkipSpaces(AfterWord(s))
  }

  /** The first entry of a text that starts with one, and what follows it. */
  function FirstTriple(s: string): Triple {
    Triple(Word(s), Word(Days(s)), Word(Days(Days(s))))
  }

  function Rest(s: string): (r: string)
    ensures |r| <= |s| - |Word(s)|
  {
    AfterWord(Days(Days(s)))
  }

  /** A text as the entries it spells, well formed or not. */
  function Triples(s: string): seq<Triple>
    decreases |s|
  {
    var r := SkipSeparators(s);
    if r == [] then [] else [FirstTriple(r)] + Triples(Rest(r))
  }

  // ---- putting words together -----------------------------------------------

  predicate Whole(t: Triple) {
    t.time != [] && t.days != [] && t.action != [] && AllWord(t.time) && AllWord(t.days) && AllWord(t.action)
  }

  function Spelled(t: Triple): string {
    t.time + (" " + (t.days + (" " + t.action)))
  }

  /** Entries one after the other with a separator between them. */
  function Joined(ts: seq<Triple>, first: bool): string
    decreases |ts|
  {
    if ts == [] then ""
    else (if first then "" else "; ") + (Spelled(ts[0]) + Joined(ts[1..], false))
  }

  predicate Ends(rest: string) {
    rest == [] || !InWord(rest[0])
  }

  lemma {:induction false} WordIs(w: string, rest: string)
    requires AllWord(w) && Ends(rest)
    ensures Word(w + rest) == w && AfterWord(w + rest) == rest
    decreases |w|
  {
    if w == [] {
      assert w + rest == rest;
    } else {
      assert (w + rest)[1..] == w[1..] + rest;
      WordIs(w[1..], rest);
    }
  }

  lemma SpaceThenWord(w: string, rest: string)
    requires w != [] && AllWord(w) && Ends(rest)
    ensures SkipSpaces(" " + (w + rest)) == w + rest
    ensures Word(w + rest) == w && AfterWord(w + rest) == rest
  {
    WordIs(w, rest);
    assert (" " + (w + rest))[1..] == w + rest;
    assert InWord((w + rest)[0]);
    assert SkipSpaces(w + rest) == w + rest;
  }

  lemma TripleBack(t: Triple, rest: string)
    requires Whole(t) && Ends(rest)
    ensures var s := Spelled(t) + rest;
            FirstTriple(s) == t && Rest(s) == rest && s != [] && InWord(s[0])
  {
    var s2 := " " + (t.action + rest);
    var s1 := " " + (t.days + s2);
    assert Spelled(t) + rest == t.time + s1;
    WordIs(t.time, s1);
    SpaceThenWord(t.days, s2);
    SpaceThenWord(t.action, rest);
  }

  lemma SkipOneSeparator(s: string)
    requires s != [] && InWord(s[0])
    ensures SkipSeparators(s) == s && SkipSeparators("; " + s) == s
  {
    assert ("; " + s)[1..] == " " + s && (" " + s)[1..] == s;
    assert SkipSeparators(" " + s) == s;
  }

  /** Joined words come apart as the same words. */
  lemma {:induction false} TriplesBack(ts: seq<Triple>, first: bool)
    requires forall i :: 0 <= i < |ts| ==> Whole(ts[i])
    ensures Triples(Joined(ts, first)) == ts
    decreases |ts|
  {
    if ts != [] {
      var rest := Joined(ts[1..], false);
      var s := Spelled(ts[0]) + rest;
      TriplesBack(ts[1..], false);
      TripleBack(ts[0], rest);
      SkipOneSeparator(s);
      assert "" + s == s;
      assert ts == [ts[0]] + ts[1..];
    }
  }

  // ---- letter case ----------------------------------------------------------

  function LowerAll(s: string): (r: string)
    ensures |r| == |s| && forall i :: 0 <= i < |s| ==> r[i] == Lower(s[i])
  {
    seq(|s|, i requires 0 <= i < |s| => Lower(s[i]))
  }

  function LowerTriple(t: Triple): Triple {
    Triple(LowerAll(t.time), LowerAll(t.days), LowerAll(t.action))
  }

  function LowerTriples(ts: seq<Triple>): seq<Triple>
    decreases |ts|
  {
    if ts == [] then [] else [LowerTriple(ts[0])] + LowerTriples(ts[1..])
  }

  lemma LowerTail(s: string, n: nat)
    requires n <= |s|
    ensures LowerAll(s)[n..] == LowerAll(s[n..]) && LowerAll(s)[..n] == LowerAll(s[..n])
  {
  }

  lemma {:induction false} LowerSkips(s: string)
    ensures SkipSpaces(LowerAll(s)) == LowerAll(SkipSpaces(s))
            && SkipSeparators(LowerAll(s)) == LowerAll(SkipSeparators(s))
    decreases |s|
  {
    if s != [] {
      LowerTail(s, 1);
      LowerSkips(s[1..]);
    }
  }

  lemma {:induction false} LowerWord(s: string)
    ensures Word(LowerAll(s)) == LowerAll(Word(s)) && AfterWord(LowerAll(s)) == LowerAll(AfterWord(s))
    decreases |s|
  {
    if s != [] {
      LowerTail(s, 1);
      LowerWord(s[1..]);
    }
    LowerTail(s, |Word(s)|);
  }

  lemma LowerDays(s: string)
    ensures Days(LowerAll(s)) == LowerAll(Days(s))
  {
    LowerWord(s);
    LowerSkips(AfterWord(s));
  }

  lemma LowerFirstTriple(s: string)
    ensures FirstTriple(LowerAll(s)) == LowerTriple(FirstTriple(s)) && Rest(LowerAll(s)) == LowerAll(Rest(s))
  {
    LowerWord(s);
    LowerDays(s);
    LowerWord(Days(s));
    LowerDays(Days(s));
    LowerWord(Days(Days(s)));
  }

  lemma {:induction false} LowerTextTriples(s: string)
    ensures Triples(LowerAll(s)) == LowerTriples(Triples(s))
    decreases |s|
  {
    LowerSkips(s);
    var r := SkipSeparators(s);
    if r != [] {
      LowerFirstTriple(r);
      LowerTextTriples(Rest(r));
    }
  }
}
