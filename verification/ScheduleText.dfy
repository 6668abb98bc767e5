/**
 The editable schedule text (ScheduleText.h): what a text means, what a schedule is
 printed as, and that printing and reading back changes nothing.
 */
module ScheduleText {
  import opened Machine
  import opened ScheduleWords

  const MAX_ENTRIES: nat := 8
  const ERROR_LEN: nat := 96
  const TEXT_LEN: nat := 240

  const ACTION_OPEN: u8 := 0
  const ACTION_CLOSE: u8 := 1
  const ACTION_STOP: u8 := 2
  const ACTION_POSITION: u8 := 3

  type u16 = x: int | 0 <= x < 65536

  /** An 8-bit day mask seen as its bits, Monday at index 0; bit 7 names no day. */
  type Days = m: seq<bool> | |m| == 8 witness seq(8, _ => false)

  datatype Entry = Entry(minuteOfDay: u16, dayMask: Days, action: u8, positionPct: u8)

  /** ok with the entries read, or not ok with an error text and no entry at all. */
  datatype ParseResult = ParseResult(ok: bool, entries: seq<Entry>, error: string)

  /** The reasons for a refusal. */
  datatype Msg = TooManyEntries | ExpectedTime | BadHour | BadMinute | TimeOutOfRange | MissingDays | UnknownDay
               | MissingAction | UnknownAction | NeedsPercentage | BadPercentage | PercentageAbove100

  datatype Res<+T> = Ok(v: T) | Bad(msg: Msg, tok: Option<string>)

  // ---- tokens ---------------------------------------------------------------

  /** The index of the first c, or the length. */
  function Find(s: string, c: char): (i: nat)
    ensures i <= |s|
    decreases |s|
  {
    if s == [] || s[0] == c then 0 else 1 + Find(s[1..], c)
  }

  /** token_is: equal but for the case of the token. */
  predicate TokenIs(tok: string, lit: string) {
    |tok| == |lit| && forall i :: 0 <= i < |tok| ==> Lower(tok[i]) == lit[i]
  }

  // ---- what a text means ----------------------------------------------------

  /** The value of a run of digits, None when some character is not one. */
  function Number(s: string): Option<nat>
    decreases |s|
  {
    if s == [] then Some(0)
    else
      match Number(s[..|s| - 1])
      case None => None
      case Some(v) => if IsDigit(s[|s| - 1]) then Some(v * 10 + DigitOf(s[|s| - 1])) else None
  }

  function ParseTime(tok: string): (r: Res<u16>)
    ensures r.Ok? ==> r.v < 1440
  {
    var c := Find(tok, ':');
    if |tok| < 4 || |tok| > 5 || c == |tok| then Bad(ExpectedTime, Some(tok))
    else
      match Number(tok[..c])
      case None => Bad(BadHour, Some(tok))
      case Some(hh) =>
        match Number(tok[c + 1..])
        case None => Bad(BadMinute, Some(tok))
        case Some(mm) =>
          if hh > 23 || mm > 59 then Bad(TimeOutOfRange, Some(tok)) else Ok(hh * 60 + mm)
  }

  type Day = d: int | 0 <= d < 7

  function Name(d: Day): (n: string)
    ensures |n| == 3
  {
    match d
    case 0 => "mon"
    case 1 => "tue"
    case 2 => "wed"
    case 3 => "thu"
    case 4 => "fri"
    case 5 => "sat"
    case _ => "sun"
  }

  function NoDay(): Days {
    [false, false, false, false, false, false, false, false]
  }

  predicate SomeDay(mask: Days) {
    !mask[7] && mask != NoDay()
  }

  function Daily(): Days {
    [true, true, true, true, true, true, true, false]
  }

  function Weekdays(): Days {
    [true, true, true, true, true, false, false, false]
  }

  function Weekend(): Days {
    [false, false, false, false, false, true, true, false]
  }

  /** day_bit, as the bit's index; None is its 0. */
  function DayBit(tok: string): Option<Day>
  {
    if TokenIs(tok, "mon") then Some(0)
    else if TokenIs(tok, "tue") then Some(1)
    else if TokenIs(tok, "wed") then Some(2)
    else if TokenIs(tok, "thu") then Some(3)
    else if TokenIs(tok, "fri") then Some(4)
    else if TokenIs(tok, "sat") then Some(5)
    else if TokenIs(tok, "sun") then Some(6)
    else None
  }

  /** The names of a day list; a comma after the last one is accepted. */
  function Commas(s: string): seq<string>
    decreases |s|
  {
    if s == [] then []
    else
      var c := Find(s, ',');
      [s[..c]] + Commas(if c < |s| then s[c + 1..] else [])
  }

  function SetDays(toks: seq<string>, mask: Days): (r: Res<Days>)
    requires !mask[7]
    ensures r.Ok? ==> !r.v[7] && forall i :: 0 <= i < 7 && mask[i] ==> r.v[i]
    ensures r.Ok? && toks != [] ==> SomeDay(r.v)
    decreases |toks|
  {
    if toks == [] then Ok(mask)
    else
      match DayBit(toks[0])
      case None => Bad(UnknownDay, Some(toks[0]))
      case Some(d) =>
        assert mask[d := true][d];
        SetDays(toks[1..], mask[d := true])
  }

  function ParseDays(tok: string): (r: Res<Days>)
    requires tok != []
    ensures r.Ok? ==> SomeDay(r.v)
  {
    assert Daily()[0] && Weekdays()[0] && Weekend()[6];
    if TokenIs(tok, "daily") then Ok(Daily())
    else if TokenIs(tok, "weekdays") then Ok(Weekdays())
    else if TokenIs(tok, "weekend") then Ok(Weekend())
    else SetDays(Commas(tok), NoDay())
  }

  /** Digits read until the value passes 100, where reading stops. */
  function Percent(s: string, v: nat): Option<nat>
    decreases |s|
  {
    if v > 100 || s == [] then Some(v)
    else if !IsDigit(s[0]) then None
    else Percent(s[1..], v * 10 + DigitOf(s[0]))
  }

  datatype Act = Act(action: u8, pct: u8)

  function ParseAction(tok: string): (r: Res<Act>)
    ensures r.Ok? ==> r.v.action <= 3 && r.v.pct <= 100 && (r.v.action != ACTION_POSITION ==> r.v.pct == 0)
  {
    var c := Find(tok, ':');
    if TokenIs(tok, "open") then Ok(Act(ACTION_OPEN, 0))
    else if TokenIs(tok, "close") then Ok(Act(ACTION_CLOSE, 0))
    else if TokenIs(tok, "stop") then Ok(Act(ACTION_STOP, 0))
    else if !TokenIs(tok[..c], "position") then Bad(UnknownAction, Some(tok))
    else if c == |tok| || c + 1 == |tok| then Bad(NeedsPercentage, Some(tok))
    else
      match Percent(tok[c + 1..], 0)
      case None => Bad(BadPercentage, Some(tok))
      case Some(v) => if v > 100 then Bad(PercentageAbove100, Some(tok)) else Ok(Act(ACTION_POSITION, v))
  }

  /** What the parser can produce. */
  predicate Accepted(e: Entry) {
    && e.minuteOfDay < 1440 && SomeDay(e.dayMask)
    && e.action <= 3 && e.positionPct <= 100 && (e.action != ACTION_POSITION ==> e.positionPct == 0)
  }

  /** One entry: three words, each with the error of its own place. */
  function ReadEntry(t: Triple): (r: Res<Entry>)
    ensures r.Ok? ==> Accepted(r.v)
  {
    match ParseTime(t.time)
    case Bad(m, k) => Bad(m, k)
    case Ok(minute) =>
      if t.days == [] then Bad(MissingDays, Some(t.time))
      else
        match ParseDays(t.days)
        case Bad(m, k) => Bad(m, k)
        case Ok(mask) =>
          if t.action == [] then Bad(MissingAction, Some(t.days))
          else
            match ParseAction(t.action)
            case Bad(m, k) => Bad(m, k)
            case Ok(act) => Ok(Entry(minute, mask, act.action, act.pct))
  }

  function MsgText(m: Msg): (t: string)
    ensures t != []
  {
    match m
    case TooManyEntries => "more than 8 entries"
    case ExpectedTime => "expected HH:MM, got"
    case BadHour => "bad hour in"
    case BadMinute => "bad minute in"
    case TimeOutOfRange => "time out of range:"
    case MissingDays => "missing days after"
    case UnknownDay => "unknown day"
    case MissingAction => "missing action after"
    case UnknownAction => "unknown action"
    case NeedsPercentage => "position needs a percentage, e.g. position:40 \U{e2}\U{80}\U{94}"
    case BadPercentage => "bad percentage in"
    case PercentageAbove100 => "percentage above 100 in"
  }

  function Reject(msg: Msg, tok: Option<string>): (r: ParseResult)
    ensures !r.ok && r.entries == [] && r.error != ""
  {
    ParseResult(false, [], ErrorText(MsgText(msg), tok))
  }

  function ReadEach(ts: seq<Triple>): seq<Res<Entry>> {
    seq(|ts|, i requires 0 <= i < |ts| => ReadEntry(ts[i]))
  }

  /** Entries taken in order until one is refused. */
  function Collect(rs: seq<Res<Entry>>, acc: seq<Entry>): ParseResult
    decreases |rs|
  {
    if rs == [] then ParseResult(true, acc, "")
    else if |acc| >= MAX_ENTRIES then Reject(TooManyEntries, None)
    else
      match rs[0]
      case Bad(m, k) => Reject(m, k)
      case Ok(e) => Collect(rs[1..], acc + [e])
  }

  /** The meaning of a text (its characters, without the terminator). */
  function Parsed(text: string): ParseResult {
    Collect(ReadEach(Triples(text)), [])
  }

  /** copy_error: the message and the quoted token, cut to fit with the terminator. */
  function ErrorText(msg: string, tok: Option<string>): (e: string)
    ensures |e| < ERROR_LEN && (msg != [] ==> e != [])
  {
    var m := if |msg| < ERROR_LEN then msg else msg[..ERROR_LEN - 1];
    if tok.None? || |m| >= ERROR_LEN - 4 then m
    else
      var room := ERROR_LEN - 2 - (|m| + 2);
      m + " '" + (if |tok.value| <= room then tok.value else tok.value[..room]) + "'"
  }

  // ---- what a schedule is printed as ----------------------------------------

  /** The printer's three ways to emit: characters one by one while there is room, two
      digits or neither, one digit or none. */
  datatype Piece = Put(s: string) | Put2(v: nat) | Put1(v: nat)

  function DigitChar(v: nat): char {
    '0' + (v % 10) as char
  }

  function PieceText(p: Piece): string {
    match p
    case Put(s) => s
    case Put2(v) => [DigitChar(v / 10), DigitChar(v)]
    case Put1(v) => [DigitChar(v)]
  }

  function NamePieces(mask: Days, d: nat, first: bool): seq<Piece>
    requires d <= 7
    decreases 7 - d
  {
    if d == 7 then (if first then [Put("daily")] else [])
    else if !mask[d] then NamePieces(mask, d + 1, first)
    else (if first then [] else [Put(",")]) + [Put(Name(d))] + NamePieces(mask, d + 1, false)
  }

  function DayPieces(mask: Days): seq<Piece> {
    if mask == Daily() then [Put("daily")]
    else if mask == Weekdays() then [Put("weekdays")]
    else if mask == Weekend() then [Put("weekend")]
    else NamePieces(mask, 0, true)
  }

  function ActionPieces(e: Entry): seq<Piece> {
    if e.action == ACTION_CLOSE then [Put("close")]
    else if e.action == ACTION_STOP then [Put("stop")]
    else if e.action == ACTION_POSITION then
      [Put("position:"), if e.positionPct >= 100 then Put("100")
                         else if e.positionPct >= 10 then Put2(e.positionPct) else Put1(e.positionPct)]
    else [Put("open")]
  }

  function EntryPieces(e: Entry): seq<Piece> {
    [Put2(e.minuteOfDay / 60), Put(":"), Put2(e.minuteOfDay % 60), Put(" ")]
    + (DayPieces(e.dayMask) + ([Put(" ")] + ActionPieces(e)))
  }

  /** The entries still to print; every one but the first follows a separator. */
  function Pieces(es: seq<Entry>, first: bool): seq<Piece>
    decreases |es|
  {
    if es == [] then []
    else (if first then [] else [Put("; ")]) + (EntryPieces(es[0]) + Pieces(es[1..], false))
  }

  function Cat(ps: seq<Piece>): string
    decreases |ps|
  {
    if ps == [] then "" else PieceText(ps[0]) + Cat(ps[1..])
  }

  /** The whole text of a schedule. */
  function Text(es: seq<Entry>): string {
    Cat(Pieces(es, true))
  }

  /** What one piece adds to a buffer of n characters that holds o. */
  function PutPiece(o: string, p: Piece, n: nat): (r: string)
    requires |o| < n
    ensures |o| <= |r| < n && r[..|o|] == o
  {
    var t := PieceText(p);
    if |o| + |t| < n then o + t
    else if p.Put? then o + t[..n - 1 - |o|]
    else o
  }

  function Render(o: string, ps: seq<Piece>, n: nat): (r: string)
    requires |o| < n
    ensures |o| <= |r| < n && r[..|o|] == o
    decreases |ps|
  {
    if ps == [] then o else Render(PutPiece(o, ps[0], n), ps[1..], n)
  }

  // ---- a buffer holds the whole text exactly when it is long enough ---------

  lemma {:induction false} CatAppend(a: seq<Piece>, b: seq<Piece>)
    ensures Cat(a + b) == Cat(a) + Cat(b)
    decreases |a|
  {
    if a == [] {
      assert a + b == b;
    } else {
      assert (a + b)[1..] == a[1..] + b;
      CatAppend(a[1..], b);
    }
  }

  lemma {:induction false} RenderAppend(o: string, a: seq<Piece>, b: seq<Piece>, n: nat)
    requires |o| < n
    ensures Render(o, a + b, n) == Render(Render(o, a, n), b, n)
    decreases |a|
  {
    if a == [] {
      assert a + b == b;
    } else {
      assert (a + b)[1..] == a[1..] + b;
      RenderAppend(PutPiece(o, a[0], n), a[1..], b, n);
    }
  }

  lemma {:induction false} RenderWhole(o: string, ps: seq<Piece>, n: nat)
    requires |o| + |Cat(ps)| < n
    ensures Render(o, ps, n) == o + Cat(ps)
    decreases |ps|
  {
    if ps != [] {
      var t, more := PieceText(ps[0]), Cat(ps[1..]);
      assert o + (t + more) == (o + t) + more;
      RenderWhole(o + t, ps[1..], n);
    }
  }

  /** The printed text is the whole text if and only if that text and its terminator fit. */
  lemma WholeIffItFits(es: seq<Entry>, n: nat)
    requires n > 0
    ensures Render("", Pieces(es, true), n) == Text(es) <==> |Text(es)| < n
  {
    if |Text(es)| < n {
      RenderWhole("", Pieces(es, true), n);
    }
  }
}
