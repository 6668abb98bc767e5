/**
 The schedule text's two functions as the code runs them (ScheduleText.h): a cursor
 over the text up to its terminator, and a printer into a buffer of any length.
 */
module ScheduleTextCode {
  import opened Machine
  import opened ScheduleWords
  import opened ScheduleText

  /** What the cursor still has before it. */
  function Ahead(text: string, p: nat): string
    requires p < |text|
  {
    text[p..|text| - 1]
  }

  lemma AheadStep(text: string, p: nat)
    requires CString(text) && p + 1 < |text|
    ensures Ahead(text, p) != [] && Ahead(text, p)[0] == text[p] && Ahead(text, p)[1..] == Ahead(text, p + 1)
    ensures text[p] != '\0'
  {
    assert text[..|text| - 1][p] == text[p];
  }

  // ---- the cursor -----------------------------------------------------------

  method SkipSpacesFrom(text: string, p: nat) returns (q: nat)
    requires CString(text) && p < |text|
    ensures p <= q < |text| && Ahead(text, q) == SkipSpaces(Ahead(text, p))
  {
    q := p;
    while IsSpace(text[q])
      invariant p <= q < |text| && SkipSpaces(Ahead(text, q)) == SkipSpaces(Ahead(text, p))
      decreases |text| - q
    {
      AheadStep(text, q);
      q := q + 1;
    }
    if q + 1 < |text| {
      AheadStep(text, q);
    }
  }

  method SkipSeparatorsFrom(text: string, p: nat) returns (q: nat)
    requires CString(text) && p < |text|
    ensures p <= q < |text| && Ahead(text, q) == SkipSeparators(Ahead(text, p))
  {
    q := p;
    while IsSpace(text[q]) || text[q] == ';'
      invariant p <= q < |text| && SkipSeparators(Ahead(text, q)) == SkipSeparators(Ahead(text, p))
      decreases |text| - q
    {
      AheadStep(text, q);
      q := q + 1;
    }
    if q + 1 < |text| {
      AheadStep(text, q);
    }
  }

  method WordFrom(text: string, p: nat) returns (q: nat)
    requires CString(text) && p < |text|
    ensures p <= q < |text| && text[p..q] == Word(Ahead(text, p)) && Ahead(text, q) == AfterWord(Ahead(text, p))
  {
    q := p;
    while text[q] != '\0' && !IsSpace(text[q]) && text[q] != ';'
      invariant p <= q < |text| && Word(Ahead(text, p)) == text[p..q] + Word(Ahead(text, q))
      decreases |text| - q
    {
      WordGrows(text, p, q);
      q := q + 1;
    }
    WordEnds(text, q);
    Behind(text, p, q);
  }

  lemma WordGrows(text: string, p: nat, q: nat)
    requires CString(text) && p <= q < |text| && text[q] != '\0' && InWord(text[q])
    ensures q + 1 < |text|
    ensures text[p..q] + Word(Ahead(text, q)) == text[p..q + 1] + Word(Ahead(text, q + 1))
  {
    AheadStep(text, q);
    assert text[p..q] + [text[q]] == text[p..q + 1];
  }

  lemma Behind(text: string, p: nat, q: nat)
    requires p <= q < |text|
    ensures Ahead(text, p)[q - p..] == Ahead(text, q) && text[p..q] + [] == text[p..q] && |text[p..q]| == q - p
  {
  }

  lemma WordEnds(text: string, q: nat)
    requires CString(text) && q < |text| && (text[q] == '\0' || !InWord(text[q]))
    ensures Word(Ahead(text, q)) == []
  {
    if q + 1 < |text| {
      AheadStep(text, q);
    }
  }

  method MatchToken(tok: string, lit: string) returns (same: bool)
    ensures same == TokenIs(tok, lit)
  {
    var k := 0;
    while k < |tok|
      invariant k <= |tok| && k <= |lit| && forall i :: 0 <= i < k ==> Lower(tok[i]) == lit[i]
    {
      if k == |lit| || Lower(tok[k]) != lit[k] {
        return false;
      }
      k := k + 1;
    }
    return k == |lit|;
  }

  method FindChar(s: string, c: char) returns (k: nat)
    ensures k == Find(s, c)
  {
    k := 0;
    while k < |s| && s[k] != c
      invariant k <= |s| && Find(s, c) == k + Find(s[k..], c)
    {
      assert s[k..][1..] == s[k + 1..];
      k := k + 1;
    }
  }

  // ---- the fields -----------------------------------------------------------

  lemma {:induction false} NumberStops(s: string, k: nat)
    requires k <= |s| && Number(s[..k]) == None
    ensures Number(s) == None
    decreases |s|
  {
    if k < |s| {
      assert s[..|s| - 1][..k] == s[..k];
      NumberStops(s[..|s| - 1], k);
    } else {
      assert s[..k] == s;
    }
  }

  method ReadNumber(s: string) returns (n: Option<nat>)
    ensures n == Number(s)
  {
    var v := 0;
    for k := 0 to |s|
      invariant Number(s[..k]) == Some(v)
    {
      assert s[..k + 1][..k] == s[..k];
      if !IsDigit(s[k]) {
        NumberStops(s, k + 1);
        return None;
      }
      v := v * 10 + DigitOf(s[k]);
    }
    assert s[..|s|] == s;
    return Some(v);
  }

  method ReadTime(tok: string) returns (r: Res<u16>)
    ensures r == ParseTime(tok)
  {
    var colon := FindChar(tok, ':');
    if |tok| < 4 || |tok| > 5 || colon == |tok| {
      return Bad(ExpectedTime, Some(tok));
    }
    var hh := ReadNumber(tok[..colon]);
    if hh.None? {
      return Bad(BadHour, Some(tok));
    }
    var mm := ReadNumber(tok[colon + 1..]);
    if mm.None? {
      return Bad(BadMinute, Some(tok));
    }
    if hh.value > 23 || mm.value > 59 {
      return Bad(TimeOutOfRange, Some(tok));
    }
    return Ok(hh.value * 60 + mm.value);
  }

  method ReadDayName(tok: string) returns (d: Option<Day>)
    ensures d == DayBit(tok)
  {
    var m := MatchToken(tok, "mon");
    if m { return Some(0); }
    m := MatchToken(tok, "tue");
    if m { return Some(1); }
    m := MatchToken(tok, "wed");
    if m { return Some(2); }
    m := MatchToken(tok, "thu");
    if m { return Some(3); }
    m := MatchToken(tok, "fri");
    if m { return Some(4); }
    m := MatchToken(tok, "sat");
    if m { return Some(5); }
    m := MatchToken(tok, "sun");
    if m { return Some(6); }
    return None;
  }

  method ReadDays(tok: string) returns (r: Res<Days>)
    requires tok != []
    ensures r == ParseDays(tok)
  {
    var daily := MatchToken(tok, "daily");
    if daily { return Ok(Daily()); }
    var weekdays := MatchToken(tok, "weekdays");
    if weekdays { return Ok(Weekdays()); }
    var weekend := MatchToken(tok, "weekend");
    if weekend { return Ok(Weekend()); }
    r := ReadDayList(tok);
  }

  method ReadDayList(tok: string) returns (r: Res<Days>)
    ensures r == SetDays(Commas(tok), NoDay())
  {
    var mask := NoDay();
    var s := 0;
    while s < |tok|
      invariant s <= |tok| && !mask[7] && SetDays(Commas(tok), NoDay()) == SetDays(Commas(tok[s..]), mask)
      decreases |tok| - s
    {
      var c := FindChar(tok[s..], ',');
      var d := ReadDayName(tok[s..][..c]);
      if d.None? {
        return Bad(UnknownDay, Some(tok[s..][..c]));
      }
      ghost var more := if c < |tok[s..]| then tok[s..][c + 1..] else [];
      assert Commas(tok[s..])[1..] == Commas(more);
      mask := mask[d.value := true];
      s := if s + c < |tok| then s + c + 1 else |tok|;
      assert tok[s..] == more;
    }
    assert tok[s..] == [];
    r := Ok(mask);
  }

  method ReadPercent(s: string) returns (v: Option<nat>)
    ensures v == Percent(s, 0)
  {
    var n: nat := 0;
    for k := 0 to |s|
      invariant n <= 100 && Percent(s, 0) == Percent(s[k..], n)
    {
      assert s[k..][1..] == s[k + 1..];
      if !IsDigit(s[k]) {
        return None;
      }
      n := n * 10 + DigitOf(s[k]);
      if n > 100 {
        return Some(n);
      }
    }
    return Some(n);
  }

  method ReadAction(tok: string) returns (r: Res<Act>)
    ensures r == ParseAction(tok)
  {
    var m := MatchToken(tok, "open");
    if m { return Ok(Act(ACTION_OPEN, 0)); }
    m := MatchToken(tok, "close");
    if m { return Ok(Act(ACTION_CLOSE, 0)); }
    m := MatchToken(tok, "stop");
    if m { return Ok(Act(ACTION_STOP, 0)); }
    var c := FindChar(tok, ':');
    m := MatchToken(tok[..c], "position");
    if !m {
      return Bad(UnknownAction, Some(tok));
    }
    if c == |tok| || c + 1 == |tok| {
      return Bad(NeedsPercentage, Some(tok));
    }
    var v := ReadPercent(tok[c + 1..]);
    if v.None? {
      return Bad(BadPercentage, Some(tok));
    }
    if v.value > 100 {
      return Bad(PercentageAbove100, Some(tok));
    }
    return Ok(Act(ACTION_POSITION, v.value));
  }

  /** One entry from the cursor on: the words are read only as far as they are needed. */
  method ReadEntryFrom(text: string, p: nat) returns (r: Res<Entry>, q: nat)
    requires CString(text) && p < |text|
    ensures r == ReadEntry(FirstTriple(Ahead(text, p)))
    ensures p <= q < |text| && (r.Ok? ==> Ahead(text, q) == Rest(Ahead(text, p)))
  {
    q := WordFrom(text, p);
    var time := text[p..q];
    var minute := ReadTime(time);
    if minute.Bad? {
      return Bad(minute.msg, minute.tok), q;
    }
    var db := SkipSpacesFrom(text, q);
    q := WordFrom(text, db);
    var days := text[db..q];
    if days == [] {
      return Bad(MissingDays, Some(time)), q;
    }
    var mask := ReadDays(days);
    if mask.Bad? {
      return Bad(mask.msg, mask.tok), q;
    }
    var ab := SkipSpacesFrom(text, q);
    q := WordFrom(text, ab);
    var action := text[ab..q];
    if action == [] {
      return Bad(MissingAction, Some(days)), q;
    }
    var act := ReadAction(action);
    if act.Bad? {
      return Bad(act.msg, act.tok), q;
    }
    return Ok(Entry(minute.v, mask.v, act.v.action, act.v.pct)), q;
  }

  /** The whole text, for every C string of any length. */
  method Parse(text: string) returns (r: ParseResult)
    requires CString(text)
    ensures r == Parsed(text[..|text| - 1])
  {
    var p, entries: seq<Entry> := 0, [];
    ghost var meaning := Parsed(text[..|text| - 1]);
    assert Ahead(text, 0) == text[..|text| - 1];
    while text[p] != '\0'
      invariant p < |text| && meaning == Collect(ReadEach(Triples(Ahead(text, p))), entries)
      decreases |text| - p
    {
      var q := SkipSeparatorsFrom(text, p);
      ghost var s := Ahead(text, q);
      if text[q] == '\0' {
        EndIsNul(text, q);
        return ParseResult(true, entries, "");
      }
      EndIsNul(text, q);
      FirstRead(Ahead(text, p), s);
      if |entries| >= MAX_ENTRIES {
        return Reject(TooManyEntries, None);
      }
      var e;
      e, p := ReadEntryFrom(text, q);
      if e.Bad? {
        return Reject(e.msg, e.tok);
      }
      RestIsShorter(text, q, p);
      entries := entries + [e.v];
    }
    EndIsNul(text, p);
    return ParseResult(true, entries, "");
  }

  lemma EndIsNul(text: string, p: nat)
    requires CString(text) && p < |text|
    ensures text[p] == '\0' <==> Ahead(text, p) == []
  {
    if p + 1 < |text| {
      AheadStep(text, p);
    }
  }

  lemma FirstRead(a: string, s: string)
    requires s == SkipSeparators(a) && s != []
    ensures var rs := ReadEach(Triples(a));
            rs != [] && rs[0] == ReadEntry(FirstTriple(s)) && rs[1..] == ReadEach(Triples(Rest(s)))
  {
    HeadIsRead(FirstTriple(s), Triples(Rest(s)), Triples(a));
  }

  lemma HeadIsRead(t: Triple, more: seq<Triple>, ts: seq<Triple>)
    requires ts == [t] + more
    ensures var rs := ReadEach(ts); rs != [] && rs[0] == ReadEntry(t) && rs[1..] == ReadEach(more)
  {
    assert ts[1..] == more;
  }

  lemma RestIsShorter(text: string, q: nat, p: nat)
    requires CString(text) && q < |text| && p < |text| && Ahead(text, p) == Rest(Ahead(text, q))
    requires Ahead(text, q) != [] && InWord(Ahead(text, q)[0])
    ensures q < p
  {
    assert |Word(Ahead(text, q))| > 0;
  }

  // ---- the error text -------------------------------------------------------

  method CopyChars(dst: array<char>, i: nat, s: string, limit: nat) returns (j: nat)
    requires i <= limit < dst.Length
    modifies dst
    ensures i <= j <= limit && j == (if |s| <= limit - i then i + |s| else limit)
    ensures dst[..j] == old(dst[..i]) + s[..j - i]
  {
    ghost var was := dst[..i];
    j := i;
    while j - i < |s| && j < limit
      invariant i <= j <= limit && j - i <= |s| && dst[..j] == was + s[..j - i]
    {
      dst[j] := s[j - i];
      j := j + 1;
    }
  }

  method Append(dst: array<char>, i: nat, c: char) returns (j: nat)
    requires i < dst.Length
    modifies dst
    ensures j == i + 1 && dst[..j] == old(dst[..i]) + [c]
  {
    dst[i] := c;
    j := i + 1;
  }

  /** copy_error: the error text and its terminator, inside the 96 bytes. */
  method CopyError(dst: array<char>, msg: string, tok: Option<string>)
    requires dst.Length == ERROR_LEN
    modifies dst
    ensures var e := ErrorText(msg, tok); dst[..|e|] == e && dst[|e|] == '\0'
  {
    var i := CopyChars(dst, 0, msg, ERROR_LEN - 1);
    assert dst[..i] == (if |msg| < ERROR_LEN then msg else msg[..ERROR_LEN - 1]);
    if tok.Some? && i < ERROR_LEN - 4 {
      i := Append(dst, i, ' ');
      i := Append(dst, i, '\'');
      assert dst[..i] == msg + " '";
      i := CopyChars(dst, i, tok.value, ERROR_LEN - 2);
      i := Append(dst, i, '\'');
    }
    ghost var e := dst[..i];
    assert e == ErrorText(msg, tok);
    dst[i] := '\0';
    assert dst[..i] == e;
  }

  // ---- the printer ----------------------------------------------------------

  method PutText(out: array<char>, o: nat, s: string) returns (r: nat)
    requires o < out.Length
    modifies out
    ensures r < out.Length && out[..r] == PutPiece(old(out[..o]), Put(s), out.Length)
    ensures o <= r && forall i :: r <= i < out.Length ==> out[i] == old(out[i])
  {
    ghost var was := out[..o];
    var k := 0;
    while k < |s| && o + k + 1 < out.Length
      invariant k <= |s| && o + k < out.Length && out[..o + k] == was + s[..k]
      invariant forall i :: o + k <= i < out.Length ==> out[i] == old(out[i])
    {
      out[o + k] := s[k];
      k := k + 1;
    }
    assert k == |s| ==> s[..k] == s;
    return o + k;
  }

  method PutTwo(out: array<char>, o: nat, v: nat) returns (r: nat)
    requires o < out.Length
    modifies out
    ensures r < out.Length && out[..r] == PutPiece(old(out[..o]), Put2(v), out.Length)
    ensures o <= r && forall i :: r <= i < out.Length ==> out[i] == old(out[i])
  {
    ghost var was := out[..o];
    r := o;
    if o + 2 < out.Length {
      out[o] := DigitChar(v / 10);
      out[o + 1] := DigitChar(v);
      r := o + 2;
      assert out[..r] == was + [DigitChar(v / 10), DigitChar(v)];
    }
  }

  method PutOne(out: array<char>, o: nat, v: nat) returns (r: nat)
    requires o < out.Length
    modifies out
    ensures r < out.Length && out[..r] == PutPiece(old(out[..o]), Put1(v), out.Length)
    ensures o <= r && forall i :: r <= i < out.Length ==> out[i] == old(out[i])
  {
    ghost var was := out[..o];
    r := o;
    if o + 1 < out.Length {
      out[o] := DigitChar(v);
      r := o + 1;
      assert out[..r] == was + [DigitChar(v)];
    }
  }

  lemma RenderStep(o: string, p: Piece, rest: seq<Piece>, n: nat)
    requires |o| < n
    ensures Render(o, [p] + rest, n) == Render(PutPiece(o, p, n), rest, n)
    ensures Render(o, [p], n) == PutPiece(o, p, n)
  {
    assert ([p] + rest)[1..] == rest;
  }

  method PutDayName(out: array<char>, o: nat, d: Day, first: bool, ghost rest: seq<Piece>) returns (r: nat)
    requires o < out.Length
    modifies out
    ensures o <= r < out.Length && forall i :: r <= i < out.Length ==> out[i] == old(out[i])
    ensures Render(old(out[..o]), (if first then [] else [Put(",")]) + [Put(Name(d))] + rest, out.Length)
         == Render(out[..r], rest, out.Length)
  {
    ghost var named := [Put(Name(d))] + rest;
    r := o;
    if first {
      assert [] + [Put(Name(d))] + rest == named;
    } else {
      assert [Put(",")] + [Put(Name(d))] + rest == [Put(",")] + named;
      RenderStep(out[..o], Put(","), named, out.Length);
      r := PutText(out, r, ",");
    }
    RenderStep(out[..r], Put(Name(d)), rest, out.Length);
    r := PutText(out, r, Name(d));
  }

  method PutDayNames(out: array<char>, o: nat, mask: Days) returns (r: nat)
    requires o < out.Length
    modifies out
    ensures r < out.Length && out[..r] == Render(old(out[..o]), NamePieces(mask, 0, true), out.Length)
    ensures o <= r && forall i :: r <= i < out.Length ==> out[i] == old(out[i])
  {
    ghost var was := out[..o];
    var first := true;
    r := o;
    for d := 0 to 7
      invariant o <= r < out.Length
      invariant Render(was, NamePieces(mask, 0, true), out.Length)
                == Render(out[..r], NamePieces(mask, d, first), out.Length)
      invariant forall i :: r <= i < out.Length ==> out[i] == old(out[i])
    {
      if mask[d] {
        r := PutDayName(out, r, d, first, NamePieces(mask, d + 1, false));
        first := false;
      }
    }
    if first {
      RenderStep(out[..r], Put("daily"), [], out.Length);
      r := PutText(out, r, "daily");
    }
  }

  method PutDays(out: array<char>, o: nat, mask: Days) returns (r: nat)
    requires o < out.Length
    modifies out
    ensures r < out.Length && out[..r] == Render(old(out[..o]), DayPieces(mask), out.Length)
    ensures o <= r && forall i :: r <= i < out.Length ==> out[i] == old(out[i])
  {
    if mask == Daily() {
      RenderStep(out[..o], Put("daily"), [], out.Length);
      r := PutText(out, o, "daily");
    } else if mask == Weekdays() {
      RenderStep(out[..o], Put("weekdays"), [], out.Length);
      r := PutText(out, o, "weekdays");
    } else if mask == Weekend() {
      RenderStep(out[..o], Put("weekend"), [], out.Length);
      r := PutText(out, o, "weekend");
    } else {
      r := PutDayNames(out, o, mask);
    }
  }

  method PutAction(out: array<char>, o: nat, e: Entry) returns (r: nat)
    requires o < out.Length
    modifies out
    ensures r < out.Length && out[..r] == Render(old(out[..o]), ActionPieces(e), out.Length)
    ensures o <= r && forall i :: r <= i < out.Length ==> out[i] == old(out[i])
  {
    if e.action == ACTION_CLOSE {
      RenderStep(out[..o], Put("close"), [], out.Length);
      r := PutText(out, o, "close");
    } else if e.action == ACTION_STOP {
      RenderStep(out[..o], Put("stop"), [], out.Length);
      r := PutText(out, o, "stop");
    } else if e.action == ACTION_POSITION {
      r := PutPosition(out, o, e.positionPct);
      assert ActionPieces(e) == [Put("position:"), PercentPiece(e.positionPct)];
    } else {
      RenderStep(out[..o], Put("open"), [], out.Length);
      r := PutText(out, o, "open");
    }
  }

  function PercentPiece(pct: u8): Piece {
    if pct >= 100 then Put("100") else if pct >= 10 then Put2(pct) else Put1(pct)
  }

  method PutPosition(out: array<char>, o: nat, pct: u8) returns (r: nat)
    requires o < out.Length
    modifies out
    ensures r < out.Length && out[..r] == Render(old(out[..o]), [Put("position:"), PercentPiece(pct)], out.Length)
    ensures o <= r && forall i :: r <= i < out.Length ==> out[i] == old(out[i])
  {
    ghost var last := PercentPiece(pct);
    assert [Put("position:"), last] == [Put("position:")] + [last];
    RenderStep(out[..o], Put("position:"), [last], out.Length);
    r := PutText(out, o, "position:");
    RenderStep(out[..r], last, [], out.Length);
    if pct >= 100 {
      r := PutText(out, r, "100");
    } else if pct >= 10 {
      r := PutTwo(out, r, pct);
    } else {
      r := PutOne(out, r, pct);
    }
  }

  method PutTime(out: array<char>, o: nat, m: u16) returns (r: nat)
    requires o < out.Length
    modifies out
    ensures r < out.Length
    ensures out[..r] == Render(old(out[..o]), [Put2(m / 60), Put(":"), Put2(m % 60), Put(" ")], out.Length)
    ensures o <= r && forall i :: r <= i < out.Length ==> out[i] == old(out[i])
  {
    ghost var p0, p1, p2, p3 := Put2(m / 60), Put(":"), Put2(m % 60), Put(" ");
    assert [p0, p1, p2, p3] == [p0] + [p1, p2, p3] && [p1, p2, p3] == [p1] + [p2, p3] && [p2, p3] == [p2] + [p3];
    RenderStep(out[..o], p0, [p1, p2, p3], out.Length);
    r := PutTwo(out, o, m / 60);
    RenderStep(out[..r], p1, [p2, p3], out.Length);
    r := PutText(out, r, ":");
    RenderStep(out[..r], p2, [p3], out.Length);
    r := PutTwo(out, r, m % 60);
    RenderStep(out[..r], p3, [], out.Length);
    r := PutText(out, r, " ");
  }

  method PutEntry(out: array<char>, o: nat, e: Entry) returns (r: nat)
    requires o < out.Length
    modifies out
    ensures r < out.Length && out[..r] == Render(old(out[..o]), EntryPieces(e), out.Length)
    ensures o <= r && forall i :: r <= i < out.Length ==> out[i] == old(out[i])
  {
    ghost var head := [Put2(e.minuteOfDay / 60), Put(":"), Put2(e.minuteOfDay % 60), Put(" ")];
    ghost var days, tail := DayPieces(e.dayMask), [Put(" ")] + ActionPieces(e);
    RenderAppend(out[..o], head, days + tail, out.Length);
    r := PutTime(out, o, e.minuteOfDay);
    RenderAppend(out[..r], days, tail, out.Length);
    r := PutDays(out, r, e.dayMask);
    RenderStep(out[..r], Put(" "), ActionPieces(e), out.Length);
    r := PutText(out, r, " ");
    r := PutAction(out, r, e);
  }

  lemma FirstPieces(es: seq<Entry>, first: bool, rest: seq<Piece>)
    requires es != [] && rest == Pieces(es[1..], false)
    ensures Pieces(es, first) == if first then EntryPieces(es[0]) + rest else [Put("; ")] + (EntryPieces(es[0]) + rest)
  {
    assert [] + (EntryPieces(es[0]) + rest) == EntryPieces(es[0]) + rest;
  }

  /** What is still to come: everything put so far, then the entries from i on. */
  ghost predicate StillToPut(whole: string, o: string, es: seq<Entry>, i: nat, n: nat) {
    i <= |es| && |o| < n && whole == Render(o, Pieces(es[i..], i == 0), n)
  }

  method PutNext(out: array<char>, o: nat, es: seq<Entry>, i: nat, ghost whole: string) returns (r: nat)
    requires o < out.Length && i < |es| && StillToPut(whole, out[..o], es, i, out.Length)
    modifies out
    ensures o <= r < out.Length && forall k :: r <= k < out.Length ==> out[k] == old(out[k])
    ensures StillToPut(whole, out[..r], es, i + 1, out.Length)
  {
    ghost var rest := Pieces(es[i + 1..], false);
    TailOfTail(es, i);
    FirstPieces(es[i..], i == 0, rest);
    r := o;
    if i > 0 {
      RenderStep(out[..o], Put("; "), EntryPieces(es[i]) + rest, out.Length);
      r := PutText(out, o, "; ");
    }
    RenderAppend(out[..r], EntryPieces(es[i]), rest, out.Length);
    r := PutEntry(out, r, es[i]);
  }

  lemma StartToPut(o: string, es: seq<Entry>, n: nat)
    requires o == "" && n > 0
    ensures StillToPut(Render("", Pieces(es, true), n), o, es, 0, n)
  {
    assert es[0..] == es;
  }

  lemma TailOfTail(es: seq<Entry>, i: nat)
    requires i < |es|
    ensures es[i..] != [] && es[i..][1..] == es[i + 1..]
  {
  }

  lemma NothingToPut(whole: string, o: string, es: seq<Entry>, n: nat)
    requires StillToPut(whole, o, es, |es|, n)
    ensures o == whole
  {
    assert es[|es|..] == [];
  }

  method PutEntries(out: array<char>, es: seq<Entry>) returns (o: nat)
    requires out.Length > 0
    modifies out
    ensures o < out.Length && out[..o] == Render("", Pieces(es, true), out.Length)
    ensures forall k :: o <= k < out.Length ==> out[k] == old(out[k])
  {
    ghost var whole := Render("", Pieces(es, true), out.Length);
    o := 0;
    StartToPut(out[..o], es, out.Length);
    for i := 0 to |es|
      invariant o < out.Length && StillToPut(whole, out[..o], es, i, out.Length)
      invariant forall k :: o <= k < out.Length ==> out[k] == old(out[k])
    {
      o := PutNext(out, o, es, i, whole);
    }
    NothingToPut(whole, out[..o], es, out.Length);
  }

  /** The whole printer, for any entries and any buffer: the text as far as its pieces
      fit, terminated, and nothing written behind the terminator. */
  method Format(es: seq<Entry>, out: array<char>)
    modifies out
    ensures out.Length > 0 ==>
              var r := Render("", Pieces(es, true), out.Length);
              && out[..|r|] == r && out[|r|] == '\0'
              && forall i :: |r| < i < out.Length ==> out[i] == old(out[i])
    ensures out.Length == 0 ==> out[..] == old(out[..])
  {
    if out.Length == 0 {
      return;
    }
    var o := PutEntries(out, es);
    Terminate(out, o);
  }

  method Terminate(out: array<char>, o: nat)
    requires o < out.Length
    modifies out
    ensures out[..o] == old(out[..o]) && out[o] == '\0'
    ensures forall i :: o < i < out.Length ==> out[i] == old(out[i])
  {
    out[o] := '\0';
  }
}
