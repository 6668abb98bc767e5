/**
 One node's onboarding at a time: the gate with its first-come line (OnboardingGate.h).
 */
module OnboardingGate {
  import opened Machine

  const MAX_WAITERS: nat := 32

  /** A listener; 0 is the null pointer. */
  type Id = nat

  datatype Gate = Gate(holder: Id, waiting: seq<Id>, denials: nat)

  function Empty(): Gate {
    Gate(0, [], 0)
  }

  /** The line without the first occurrence of who. */
  function Without(w: seq<Id>, who: Id): seq<Id>
    decreases |w|
  {
    if w == [] then [] else if w[0] == who then w[1..] else [w[0]] + Without(w[1..], who)
  }

  /** Already in line: keeps its place. A full line drops the newcomer. */
  function Joined(w: seq<Id>, who: Id): seq<Id> {
    if who in w || |w| >= MAX_WAITERS then w else w + [who]
  }

  function Grant(g: Gate, who: Id): Gate {
    Gate(who, Without(g.waiting, who), 0)
  }

  function TryAcquire(g: Gate, who: Id): (Gate, bool) {
    if who == 0 then (g, false)
    else if g.holder == who then (g, true)
    else if g.holder != 0 then (g.(waiting := Joined(g.waiting, who)), false)
    else if g.waiting == [] || g.waiting[0] == who then (Grant(g, who), true)
    else if g.denials + 1 <= 2 * |g.waiting| + 2 then
      (g.(waiting := Joined(g.waiting, who), denials := g.denials + 1), false)
    else if |g.waiting| > 1 && g.waiting[1] != who then
      (g.(waiting := Joined(g.waiting[1..], who), denials := 0), false)
    else (Grant(g.(waiting := g.waiting[1..]), who), true)
  }

  function Release(g: Gate, who: Id): Gate {
    g.(holder := if g.holder == who then 0 else g.holder, waiting := Without(g.waiting, who))
  }

  // ---- the object -----------------------------------------------------------

  class GateObject {
    var holder: Id
    const line: array<Id>
    var count: nat
    var denials: nat

    ghost predicate Valid()
      reads this, line
    {
      line.Length == MAX_WAITERS && count <= MAX_WAITERS
    }

    ghost function Value(): Gate
      reads this, line
      requires Valid()
    {
      Gate(holder, line[..count], denials)
    }

    constructor ()
      ensures Valid() && Value() == Empty() && fresh(line)
    {
      line := new Id[MAX_WAITERS](_ => 0);
      holder, count, denials := 0, 0, 0;
    }

    method Remove(i: nat)
      requires Valid() && i < count
      modifies line, this`count
      ensures Valid() && line[..count] == old(line[..i]) + old(line[i + 1..count])
    {
      ghost var was := line[..count];
      var j := i + 1;
      while j < count
        invariant i < j <= count == |was| <= line.Length
        invariant line[..j - 1] == was[..i] + was[i + 1..j]
        invariant forall k :: j <= k < count ==> line[k] == was[k]
      {
        line[j - 1] := line[j];
        j := j + 1;
      }
      assert was[i + 1..] == was[i + 1..count];
      count := count - 1;
    }

    method Forget(who: Id)
      requires Valid()
      modifies line, this`count
      ensures Valid() && line[..count] == Without(old(line[..count]), who)
    {
      ghost var was := line[..count];
      for i := 0 to count
        invariant line[..count] == was
        invariant who !in was[..i]
      {
        if line[i] == who {
          WithoutAt(was, who, i);
          Remove(i);
          return;
        }
      }
      WithoutAbsent(was, who);
    }

    method Enqueue(who: Id)
      requires Valid()
      modifies line, this`count
      ensures Valid() && line[..count] == Joined(old(line[..count]), who)
    {
      for i := 0 to count
        invariant who !in line[..i]
      {
        if line[i] == who {
          assert who in line[..count];
          return;
        }
      }
      if count < MAX_WAITERS {
        line[count] := who;
        count := count + 1;
      }
    }

    /** The front did not come back for a free gate; true when the asker may have it. */
    method GiveUpOnFront(who: Id) returns (open: bool)
      requires Valid() && count > 0
      modifies this, line
      ensures Valid() && holder == old(holder) && denials == 0
      ensures var w := old(line[1..count]);
              open == (w == [] || w[0] == who) && line[..count] == (if open then w else Joined(w, who))
    {
      ghost var was := line[..count];
      Remove(0);
      assert was[1..] == line[..count];
      denials := 0;
      open := count == 0 || line[0] == who;
      if !open {
        Enqueue(who);
      }
    }

    method TakeIt(who: Id)
      requires Valid()
      modifies this, line
      ensures Valid() && Value() == Grant(old(Value()), who)
    {
      Forget(who);
      denials := 0;
      holder := who;
    }

    method TryToAcquire(who: Id) returns (granted: bool)
      requires Valid()
      modifies this, line
      ensures Valid() && (Value(), granted) == TryAcquire(old(Value()), who)
    {
      if who == 0 {
        return false;
      }
      if holder == who {
        return true;
      }
      if holder != 0 {
        Enqueue(who);
        return false;
      }
      if count > 0 && line[0] != who {
        denials := denials + 1;
        if denials <= 2 * count + 2 {
          Enqueue(who);
          return false;
        }
        ghost var was := line[..count];
        assert line[1..count] == was[1..];
        var open := GiveUpOnFront(who);
        if !open {
          return false;
        }
      }
      TakeIt(who);
      granted := true;
    }

    method ReleaseBy(who: Id)
      requires Valid()
      modifies this, line
      ensures Valid() && Value() == Release(old(Value()), who)
    {
      if holder == who {
        holder := 0;
      }
      Forget(who);
    }

    method Reset()
      requires Valid()
      modifies this
      ensures Valid() && Value() == Empty()
    {
      holder, count, denials := 0, 0, 0;
    }
  }

  lemma {:induction false} WithoutAt(w: seq<Id>, who: Id, i: nat)
    requires i < |w| && w[i] == who && who !in w[..i]
    ensures Without(w, who) == w[..i] + w[i + 1..]
    decreases |w|
  {
    if i > 0 {
      assert w[0] == w[..i][0];
      assert w[..i] == [w[0]] + w[1..][..i - 1];
      WithoutAt(w[1..], who, i - 1);
      assert w[1..][i..] == w[i + 1..];
    }
  }

  lemma {:induction false} WithoutAbsent(w: seq<Id>, who: Id)
    requires who !in w
    ensures Without(w, who) == w
    decreases |w|
  {
    if w != [] {
      WithoutAbsent(w[1..], who);
    }
  }

  // ---- what every call keeps ------------------------------------------------

  /** Waiters are distinct, real, and not the holder; the line never overflows. */
  ghost predicate Sound(g: Gate) {
    Distinct(g.waiting) && |g.waiting| <= MAX_WAITERS && 0 !in g.waiting && (g.holder != 0 ==> g.holder !in g.waiting)
  }

  /** Position in line; one past the end for those not in it. */
  function Place(w: seq<Id>, who: Id): (p: nat)
    ensures p <= |w| && (p < |w| ==> w[p] == who) && (p == |w| <==> who !in w)
    decreases |w|
  {
    if w == [] then 0 else if w[0] == who then 0 else 1 + Place(w[1..], who)
  }

  lemma {:induction false} WithoutKeeps(w: seq<Id>, who: Id)
    requires Distinct(w)
    ensures var v := Without(w, who);
            Distinct(v) && |v| <= |w| && who !in v && forall x :: x in v <==> x in w && x != who
    decreases |w|
  {
    if w != [] {
      assert Distinct(w[1..]);
      assert w[0] !in w[1..];
      WithoutKeeps(w[1..], who);
      if w[0] != who {
        DistinctPrepend(w[0], Without(w[1..], who));
      }
    }
  }

  lemma JoinedKeeps(w: seq<Id>, who: Id)
    requires Distinct(w) && |w| <= MAX_WAITERS
    ensures Distinct(Joined(w, who)) && |Joined(w, who)| <= MAX_WAITERS
    ensures forall x :: x in Joined(w, who) ==> x in w || x == who
  {
    if who !in w && |w| < MAX_WAITERS {
      DistinctAppend(w, who);
    }
  }

  lemma AskKeepsSound(g: Gate, who: Id)
    requires Sound(g)
    ensures Sound(TryAcquire(g, who).0)
  {
    JoinedKeeps(g.waiting, who);
    WithoutKeeps(g.waiting, who);
    if g.waiting != [] {
      assert Distinct(g.waiting[1..]);
      JoinedKeeps(g.waiting[1..], who);
      WithoutKeeps(g.waiting[1..], who);
    }
  }

  lemma ReleaseKeepsSound(g: Gate, who: Id)
    requires Sound(g)
    ensures Sound(Release(g, who))
  {
    WithoutKeeps(g.waiting, who);
  }

  /** At most one holder: a held gate changes hands only through its holder's release,
      and a free one goes to the front of the line, or to who is next when the front
      has been given up on. */
  lemma OnlyTheHolderFrees(g: Gate, who: Id)
    requires Sound(g) && g.holder != 0
    ensures TryAcquire(g, who).0.holder == g.holder && (TryAcquire(g, who).1 <==> who == g.holder)
    ensures TryAcquire(g, g.holder).0 == g && TryAcquire(g, who).0.denials == g.denials
    ensures Release(g, who).holder == (if who == g.holder then 0 else g.holder)
  {
  }

  lemma GrantGoesToTheFront(g: Gate, who: Id)
    requires Sound(g) && g.holder == 0 && who != 0
    ensures var (n, granted) := TryAcquire(g, who);
            var expired := g.denials >= 2 * |g.waiting| + 2;
            && (granted <==> g.waiting == [] || who == g.waiting[0]
                             || (expired && (|g.waiting| == 1 || who == g.waiting[1])))
            && n.holder == (if granted then who else 0)
  {
  }

  // ---- first come, first served ---------------------------------------------

  lemma {:induction false} WithoutPlace(w: seq<Id>, who: Id, x: Id)
    requires Distinct(w) && x != who
    ensures Place(Without(w, who), x) == Place(w, x) - (if Place(w, who) < Place(w, x) then 1 else 0)
    decreases |w|
  {
    if w != [] {
      assert Distinct(w[1..]);
      if w[0] == who {
        assert Place(w, x) == 1 + Place(w[1..], x);
      } else if w[0] != x {
        WithoutPlace(w[1..], who, x);
      }
    }
  }

  lemma {:induction false} AppendPlace(w: seq<Id>, who: Id, x: Id)
    requires who !in w
    ensures Place(w + [who], x) == (if x in w then Place(w, x) else if x == who then |w| else |w| + 1)
    decreases |w|
  {
    if w != [] {
      assert (w + [who])[1..] == w[1..] + [who];
      AppendPlace(w[1..], who, x);
    }
  }

  lemma JoinedPlace(w: seq<Id>, who: Id, x: Id)
    ensures x in w ==> Place(Joined(w, who), x) == Place(w, x)
    ensures x !in w && x in Joined(w, who) ==> Place(Joined(w, who), x) == |w|
  {
    if who !in w && |w| < MAX_WAITERS {
      AppendPlace(w, who, x);
    }
  }

  datatype Call = Ask(who: Id) | Leave(who: Id)

  function After(g: Gate, c: Call): Gate {
    match c
    case Ask(who) => TryAcquire(g, who).0
    case Leave(who) => Release(g, who)
  }

  lemma StepKeepsSound(g: Gate, c: Call)
    requires Sound(g)
    ensures Sound(After(g, c))
  {
    AskKeepsSound(g, c.who);
    ReleaseKeepsSound(g, c.who);
  }

  lemma TailPlace(w: seq<Id>, x: Id)
    requires w != [] && x in w && x != w[0]
    ensures x in w[1..] && Place(w[1..], x) == Place(w, x) - 1
  {
  }

  /** Dropping the front, then joining or taking the gate, moves everyone behind up. */
  lemma DropMoves(w: seq<Id>, who: Id, x: Id)
    requires Distinct(w) && w != [] && x in w && x != w[0] && who != x
    ensures x in Joined(w[1..], who) && Place(Joined(w[1..], who), x) == Place(w, x) - 1
    ensures Place(Without(w[1..], who), x) <= Place(w, x) - 1
  {
    TailPlace(w, x);
    assert Distinct(w[1..]);
    JoinedPlace(w[1..], who, x);
    WithoutPlace(w[1..], who, x);
  }

  lemma AskMoves(g: Gate, who: Id, x: Id)
    requires Sound(g) && who != x && x in g.waiting && x in TryAcquire(g, who).0.waiting
    ensures var (n, granted) := TryAcquire(g, who);
            Place(n.waiting, x) <= Place(g.waiting, x) - (if granted && who != g.holder then 1 else 0)
  {
    var w := g.waiting;
    if g.holder == 0 && w[0] != who && g.denials + 1 > 2 * |w| + 2 && who != 0 {
      if x == w[0] {
        FrontGoes(g, who);
      } else {
        DropMoves(w, who, x);
      }
    } else {
      JoinedPlace(w, who, x);
      WithoutPlace(w, who, x);
    }
  }

  /** Nobody overtakes: as long as a waiter is in line no call of anyone else moves it
      back, and every grant to another moves it up. */
  lemma NobodyOvertakes(g: Gate, c: Call, x: Id)
    requires Sound(g) && c.who != x && x in g.waiting && x in After(g, c).waiting
    ensures Place(After(g, c).waiting, x) <= Place(g.waiting, x) - (if NewGrant(g, c) then 1 else 0)
  {
    match c
    case Ask(who) => AskMoves(g, who, x);
    case Leave(who) => WithoutPlace(g.waiting, who, x);
  }

  predicate NewGrant(g: Gate, c: Call) {
    c.Ask? && c.who != g.holder && TryAcquire(g, c.who).1
  }

  function Grants(g: Gate, calls: seq<Call>): nat
    decreases |calls|
  {
    if calls == [] then 0 else (if NewGrant(g, calls[0]) then 1 else 0) + Grants(After(g, calls[0]), calls[1..])
  }

  function Final(g: Gate, calls: seq<Call>): Gate
    decreases |calls|
  {
    if calls == [] then g else Final(After(g, calls[0]), calls[1..])
  }

  /** x is in line before and after every call, none of them its own. */
  predicate Waits(g: Gate, calls: seq<Call>, x: Id)
    decreases |calls|
  {
    x in g.waiting && (calls == [] || (calls[0].who != x && Waits(After(g, calls[0]), calls[1..], x)))
  }

  /** Bounded overtaking over any run: while a waiter waits, the gate is granted at most
      as often as there were waiters before it. */
  lemma {:induction false} AtMostItsPlaceGrants(g: Gate, calls: seq<Call>, x: Id)
    requires Sound(g) && Waits(g, calls, x)
    ensures Place(Final(g, calls).waiting, x) + Grants(g, calls) <= Place(g.waiting, x)
    decreases |calls|
  {
    if calls != [] {
      NobodyOvertakes(g, calls[0], x);
      StepKeepsSound(g, calls[0]);
      AtMostItsPlaceGrants(After(g, calls[0]), calls[1..], x);
    }
  }

  /** Mutual exclusion over any run: until its holder releases it, whoever asks and whoever
      leaves, the gate stays with the holder and is granted to nobody else. */
  lemma {:induction false} HeldUntilReleased(g: Gate, calls: seq<Call>)
    requires Sound(g) && g.holder != 0 && forall c <- calls :: c != Leave(g.holder)
    ensures Final(g, calls).holder == g.holder && Final(g, calls).denials == g.denials && Grants(g, calls) == 0
    decreases |calls|
  {
    if calls != [] {
      assert calls[0] in calls && forall c <- calls[1..] :: c in calls;
      OnlyTheHolderFrees(g, calls[0].who);
      StepKeepsSound(g, calls[0]);
      HeldUntilReleased(After(g, calls[0]), calls[1..]);
    }
  }

  /** Every grant starts the count of denials afresh: when its holder releases the gate, be
      it after any calls of others, the front of the line has its whole count before it. */
  lemma NextFrontHasItsWholeCount(g: Gate, who: Id, calls: seq<Call>)
    requires Sound(g) && who != 0 && NewGrant(g, Ask(who)) && forall c <- calls :: c != Leave(who)
    ensures var h := Release(Final(After(g, Ask(who)), calls), who); h.holder == 0 && h.denials == 0
  {
    StepKeepsSound(g, Ask(who));
    GrantedHolds(g, who);
    HeldUntilReleased(After(g, Ask(who)), calls);
  }

  lemma GrantedHolds(g: Gate, who: Id)
    requires Sound(g) && who != 0 && NewGrant(g, Ask(who))
    ensures After(g, Ask(who)).holder == who && After(g, Ask(who)).denials == 0
  {
  }

  // ---- a live front is kept, a silent one given up on -----------------------

  function AskAll(g: Gate, asks: seq<Id>): Gate
    decreases |asks|
  {
    if asks == [] then g else AskAll(TryAcquire(g, asks[0]).0, asks[1..])
  }

  lemma {:induction false} CountTwice(m: multiset<Id>, s: set<Id>)
    requires forall x :: x in m ==> x in s && m[x] <= 2
    ensures |m| <= 2 * |s|
    decreases |s|
  {
    if s == {} {
      assert m == multiset{};
    } else {
      var x :| x in s;
      var rest := m[x := 0];
      assert forall y :: y in rest ==> y in s - {x} && rest[y] <= 2;
      CountTwice(rest, s - {x});
      assert |rest| == |m| - m[x];
    }
  }

  function SetOf(w: seq<Id>): (s: set<Id>)
    ensures forall x :: x in s <==> x in w
    decreases |w|
  {
    if w == [] then {} else {w[0]} + SetOf(w[1..])
  }

  lemma {:induction false} SetOfDistinct(w: seq<Id>)
    requires Distinct(w)
    ensures |SetOf(w)| == |w|
    decreases |w|
  {
    if w != [] {
      assert Distinct(w[1..]);
      SetOfDistinct(w[1..]);
      assert w[0] !in w[1..];
    }
  }

  lemma {:induction false} SubsetSize(a: set<Id>, b: set<Id>)
    requires a <= b
    ensures |a| <= |b|
    decreases |a|
  {
    if a != {} {
      var x :| x in a;
      SubsetSize(a - {x}, b - {x});
    }
  }

  /** With at most 32 listeners in all a newcomer finds room. */
  lemma RoomForAll(w: seq<Id>, fleet: set<Id>, who: Id)
    requires Distinct(w) && |fleet| <= MAX_WAITERS && who in fleet && forall x :: x in w ==> x in fleet
    ensures who in Joined(w, who)
  {
    if who !in w {
      SetOfDistinct(w);
      SubsetSize(SetOf(w) + {who}, fleet);
    }
  }

  ghost predicate Free(g: Gate, f: Id, fleet: set<Id>) {
    && Sound(g) && g.holder == 0 && g.waiting != [] && g.waiting[0] == f
    && |fleet| <= MAX_WAITERS && forall x :: x in g.waiting ==> x in fleet
  }

  lemma FewDenials(w: seq<Id>, past: seq<Id>)
    requires w != [] && Distinct(w)
    requires forall x :: x in multiset(past) ==> x in w && x != w[0] && multiset(past)[x] <= 2
    ensures |past| <= 2 * (|w| - 1)
  {
    assert Distinct(w[1..]);
    assert w == [w[0]] + w[1..];
    SetOfDistinct(w[1..]);
    CountTwice(multiset(past), SetOf(w[1..]));
  }

  lemma LiveFrontStep(g: Gate, past: seq<Id>, who: Id, f: Id, fleet: set<Id>)
    requires Free(g, f, fleet) && g.denials == |past| && who != 0 && who != f && who in fleet
    requires forall x :: x in multiset(past) ==> x in g.waiting && x != f && multiset(past)[x] <= 2
    ensures var n := TryAcquire(g, who).0;
            && Free(n, f, fleet) && n.denials == |past + [who]| && who in n.waiting
            && (forall x :: x in g.waiting ==> x in n.waiting)
  {
    FewDenials(g.waiting, past);
    RoomForAll(g.waiting, fleet, who);
    AskKeepsSound(g, who);
  }

  /** Between two asks of the front each other listener asks at most twice: the front
      keeps its place, nobody is granted the gate, and its next ask gets it. */
  lemma {:induction false} LiveFrontIsNeverDropped(g: Gate, past: seq<Id>, asks: seq<Id>, f: Id, fleet: set<Id>)
    requires Free(g, f, fleet) && g.denials == |past|
    requires forall x :: x in past ==> x in g.waiting
    requires forall x :: x in multiset(past + asks) ==> x != 0 && x != f && x in fleet && multiset(past + asks)[x] <= 2
    ensures var n := AskAll(g, asks);
            n.holder == 0 && n.waiting != [] && n.waiting[0] == f && TryAcquire(n, f).1
    decreases |asks|
  {
    assert multiset(past + asks) == multiset(past) + multiset(asks);
    if asks != [] {
      var who := asks[0];
      assert who in multiset(asks) && who in multiset(past + asks);
      forall x | x in multiset(past)
        ensures x in g.waiting && x != f && multiset(past)[x] <= 2
      {
        assert x in multiset(past + asks);
      }
      LiveFrontStep(g, past, who, f, fleet);
      assert past + asks == (past + [who]) + asks[1..];
      LiveFrontIsNeverDropped(TryAcquire(g, who).0, past + [who], asks[1..], f, fleet);
    }
  }

  lemma AskWithout(g: Gate, who: Id, f: Id)
    requires Sound(g) && who != f && f !in g.waiting
    ensures f !in TryAcquire(g, who).0.waiting
  {
    JoinedKeeps(g.waiting, who);
    WithoutKeeps(g.waiting, who);
    if g.waiting != [] {
      assert Distinct(g.waiting[1..]);
      JoinedKeeps(g.waiting[1..], who);
      WithoutKeeps(g.waiting[1..], who);
    }
  }

  /** A front that never asks again is out of the line after at most 67 asks of others,
      whoever they are and however often they ask. */
  lemma {:induction false} SilentFrontIsDropped(g: Gate, asks: seq<Id>, f: Id)
    requires Sound(g) && (f in g.waiting ==> g.holder == 0 && g.waiting[0] == f)
    requires 0 !in asks && f !in asks
    requires f in g.waiting ==> asks != [] && g.denials + |asks| > 2 * MAX_WAITERS + 2
    ensures f !in AskAll(g, asks).waiting
    decreases |asks|
  {
    if asks != [] {
      var n := TryAcquire(g, asks[0]).0;
      assert asks[0] in asks && forall x :: x in asks[1..] ==> x in asks;
      AskKeepsSound(g, asks[0]);
      if f !in g.waiting {
        AskWithout(g, asks[0], f);
      } else if g.denials + 1 > 2 * |g.waiting| + 2 {
        FrontGoes(g, asks[0]);
      }
      SilentFrontIsDropped(n, asks[1..], f);
    }
  }

  lemma FrontGoes(g: Gate, who: Id)
    requires Sound(g) && g.holder == 0 && g.waiting != [] && who != 0 && who != g.waiting[0]
    requires g.denials + 1 > 2 * |g.waiting| + 2
    ensures g.waiting[0] !in TryAcquire(g, who).0.waiting
  {
    assert Distinct(g.waiting[1..]);
    assert g.waiting[0] !in g.waiting[1..];
    JoinedKeeps(g.waiting[1..], who);
    WithoutKeeps(g.waiting[1..], who);
  }

  /** To the ask: with nobody new, 2n + 2 denials leave the line as it was and the next
      ask of anyone else takes the front out. */
  lemma {:induction false} DroppedExactlyThen(g: Gate, asks: seq<Id>, who: Id)
    requires Sound(g) && g.holder == 0 && g.waiting != [] && who != 0 && who != g.waiting[0]
    requires forall x :: x in asks ==> x in g.waiting && x != g.waiting[0]
    requires g.denials + |asks| == 2 * |g.waiting| + 2
    ensures AskAll(g, asks) == g.(denials := 2 * |g.waiting| + 2)
    ensures g.waiting[0] !in TryAcquire(AskAll(g, asks), who).0.waiting
    decreases |asks|
  {
    if asks != [] {
      assert asks[0] in asks && forall x :: x in asks[1..] ==> x in asks;
      DroppedExactlyThen(TryAcquire(g, asks[0]).0, asks[1..], who);
    } else {
      FrontGoes(g, who);
    }
  }

  /** Why only the holder may release: the count of denials outlives a front that leaves
      by itself, so the next in line is given up on at the next ask of another, before it
      ever found the gate free. */
  lemma LeavingFrontCostsTheNext(g: Gate, who: Id)
    requires Sound(g) && g.holder == 0 && |g.waiting| > 1 && g.denials >= 2 * |g.waiting|
    requires who != 0 && who != g.waiting[0] && who != g.waiting[1]
    ensures g.waiting[1] !in TryAcquire(Release(g, g.waiting[0]), who).0.waiting
  {
    ReleaseKeepsSound(g, g.waiting[0]);
    assert Without(g.waiting, g.waiting[0]) == g.waiting[1..];
    FrontGoes(Release(g, g.waiting[0]), who);
  }
}
