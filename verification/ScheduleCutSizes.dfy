/**
 Where a printed schedule is cut, by the sizes of its entries alone: every entry takes
 its size, and all but the first a separator of two characters before it.
 */
module ScheduleCutSizes {

  /** An entry's printed size, and whether its last three characters are the 100 that is
      put character by character. */
  datatype Box = Box(size: nat, hundred: bool)

  /** Nowhere, between entries with k of them whole, in the 100 of entry k, or where nothing
      can be read. */
  datatype Cut = Nowhere | Between(k: nat) | InHundred(k: nat, missing: nat) | Unreadable

  function Sep(first: bool): nat {
    if first then 0 else 2
  }

  function Later(c: Cut): Cut {
    match c
    case Between(k) => Between(k + 1)
    case InHundred(k, missing) => InHundred(k + 1, missing)
    case _ => c
  }

  /** Found entry by entry, as the printer goes. */
  function CutAt(bs: seq<Box>, first: bool, room: nat): Cut
    decreases |bs|
  {
    if bs == [] then Nowhere
    else if room <= Sep(first) then Between(0)
    else if room >= Sep(first) + bs[0].size then Later(CutAt(bs[1..], false, room - Sep(first) - bs[0].size))
    else if bs[0].hundred && room + 2 >= Sep(first) + bs[0].size then InHundred(0, Sep(first) + bs[0].size - room)
    else Unreadable
  }

  predicate Sized(bs: seq<Box>) {
    forall i :: 0 <= i < |bs| ==> bs[i].size > 4
  }

  lemma {:induction false} CutInside(bs: seq<Box>, first: bool, room: nat)
    ensures var c := CutAt(bs, first, room);
            && (c.Between? ==> c.k < |bs|)
            && (c.InHundred? ==> c.k < |bs| && bs[c.k].hundred && 1 <= c.missing <= 2)
    decreases |bs|
  {
    if bs != [] && room >= Sep(first) + bs[0].size {
      CutInside(bs[1..], false, room - Sep(first) - bs[0].size);
    }
  }

  /** The length of the text of the first j entries. */
  function Upto(bs: seq<Box>, first: bool, j: nat): nat
    requires j <= |bs|
    decreases j
  {
    if j == 0 then 0 else Sep(first) + bs[0].size + Upto(bs[1..], false, j - 1)
  }

  /** The room ends with j entries whole and at most the separator behind them. */
  predicate EndsBetween(bs: seq<Box>, first: bool, room: nat, j: nat) {
    j < |bs| && Upto(bs, first, j) <= room <= Upto(bs, first, j) + (if j == 0 then Sep(first) else 2)
  }

  /** The room ends one or two characters short of the 100 of entry j. */
  predicate EndsInHundred(bs: seq<Box>, first: bool, room: nat, j: nat) {
    j < |bs| && bs[j].hundred && room < Upto(bs, first, j + 1) <= room + 2
  }

  lemma {:induction false} BetweenIff(bs: seq<Box>, first: bool, room: nat, j: nat)
    requires Sized(bs)
    ensures CutAt(bs, first, room) == Between(j) <==> EndsBetween(bs, first, room, j)
    decreases |bs|
  {
    if bs != [] && j > 0 && room >= Sep(first) + bs[0].size {
      BetweenIff(bs[1..], false, room - Sep(first) - bs[0].size, j - 1);
    }
  }

  lemma {:induction false} UptoGrows(bs: seq<Box>, first: bool, j: nat)
    requires Sized(bs) && j < |bs|
    ensures Upto(bs, first, j + 1) > Upto(bs, first, j) + (if j == 0 then Sep(first) else 2) + 4
    decreases j
  {
    if j > 0 {
      UptoGrows(bs[1..], false, j - 1);
    } else {
      assert Upto(bs[1..], false, 0) == 0;
    }
  }

  lemma {:induction false} InHundredIff(bs: seq<Box>, first: bool, room: nat, j: nat)
    requires Sized(bs)
    ensures EndsInHundred(bs, first, room, j) <==>
              CutAt(bs, first, room).InHundred? && CutAt(bs, first, room).k == j
    ensures EndsInHundred(bs, first, room, j) ==>
              CutAt(bs, first, room) == InHundred(j, Upto(bs, first, j + 1) - room)
    decreases |bs|
  {
    if bs != [] {
      assert Upto(bs[1..], false, 0) == 0;
      if 0 < j < |bs| {
        UptoGrows(bs[1..], false, j - 1);
      }
      if j > 0 && room >= Sep(first) + bs[0].size {
        InHundredIff(bs[1..], false, room - Sep(first) - bs[0].size, j - 1);
      }
    }
  }

  lemma {:induction false} NowhereIff(bs: seq<Box>, first: bool, room: nat)
    requires Sized(bs)
    ensures CutAt(bs, first, room) == Nowhere <==> room >= Upto(bs, first, |bs|)
    decreases |bs|
  {
    if bs != [] && room >= Sep(first) + bs[0].size {
      NowhereIff(bs[1..], false, room - Sep(first) - bs[0].size);
    }
  }

  ghost predicate CutBetween(bs: seq<Box>, room: nat) {
    exists j :: EndsBetween(bs, true, room, j)
  }

  ghost predicate CutInHundred(bs: seq<Box>, room: nat) {
    exists j :: EndsInHundred(bs, true, room, j)
  }

  /** Which cuts leave something that can be read, both directions. */
  lemma ReadableCutIff(bs: seq<Box>, room: nat)
    requires Sized(bs)
    ensures CutAt(bs, true, room).Between? <==> CutBetween(bs, room)
    ensures CutAt(bs, true, room).InHundred? <==> CutInHundred(bs, room)
  {
    var c := CutAt(bs, true, room);
    if c.Between? {
      BetweenIff(bs, true, room, c.k);
    }
    if c.InHundred? {
      InHundredIff(bs, true, room, c.k);
    }
    forall j | EndsBetween(bs, true, room, j)
      ensures c == Between(j)
    {
      BetweenIff(bs, true, room, j);
    }
    forall j | EndsInHundred(bs, true, room, j)
      ensures c.InHundred?
    {
      InHundredIff(bs, true, room, j);
    }
  }
}
