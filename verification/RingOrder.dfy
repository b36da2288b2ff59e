/** The order in which a rotation meets the live positions of a ring, seen from
    where it starts. */
module RingOrder {
  import opened Rotation

  /** The last live position at or before the end of the ring. */
  function Highest(live: seq<bool>): (h: nat)
    ensures AnyLive(live) ==> h < |live| && live[h] && forall x | h < x < |live| :: !live[x]
  {
    if live == [] || live[|live| - 1] then |live| - (if live == [] then 0 else 1)
    else
      assert AnyLive(live) ==> AnyLive(live[..|live| - 1]);
      Highest(live[..|live| - 1])
  }

  /** Seen from `from`, `x` comes before `y`. */
  predicate Before(n: nat, from: nat, x: nat, y: nat)
    requires from < n && x < n && y < n
  {
    Dist(n, from, x) < Dist(n, from, y)
  }

  lemma VisitedAt(live: seq<bool>, link: nat, t: nat, x: nat) returns (i: nat)
    requires link < |live| && 0 < Visits(live, link, t, x)
    ensures 1 <= i <= t && Turn(live, link, i) == x
  {
    if Turn(live, link, t) == x {
      i := t;
    } else {
      i := VisitedAt(live, link, t - 1, x);
    }
  }

  lemma {:induction false} VisitsGrow(live: seq<bool>, link: nat, s: nat, t: nat, x: nat)
    requires link < |live| && s <= t
    ensures Visits(live, link, s, x) <= Visits(live, link, t, x)
    ensures s < t && Turn(live, link, t) == x ==> Visits(live, link, s, x) < Visits(live, link, t, x)
  {
    hide Turn;
    if s < t {
      VisitsGrow(live, link, s, t - 1, x);
    }
  }

  /** One round from outside the live positions meets them in the order of their
      distance from where it starts. */
  lemma RoundAscends(live: seq<bool>, from: nat, i: nat)
    requires from < |live| && !live[from] && 1 <= i < |Members(live)|
    ensures Before(|live|, from, Turn(live, from, i), Turn(live, from, i + 1))
  {
    hide Turn, Dist, FirstLive, Succ, Members;
    var n, x, y := |live|, Turn(live, from, i), Turn(live, from, i + 1);
    MembersIffLive(live);
    NextTurn(live, from, i - 1);
    NextTurn(live, from, i);
    FirstTurnIsNearest(live, from);
    if !Before(n, from, x, y) {
      BackToFirst(n, from, x, y, Turn(live, from, 1));
      TurnDiffers(live, from, 1, i + 1);
    }
  }

  lemma NextTurn(live: seq<bool>, from: nat, i: nat)
    requires from < |live| && AnyLive(live)
    ensures var x, y := Turn(live, from, i), Turn(live, from, i + 1);
            && y == FirstLive(live, Succ(|live|, x)) && live[y]
            && forall z | 0 <= z < |live| && live[z] ::
                 Dist(|live|, Succ(|live|, x), y) <= Dist(|live|, Succ(|live|, x), z)
  {
    FirstLiveIsNearest(live, Succ(|live|, Turn(live, from, i)));
  }

  /** A step from x to y that passes `from` goes no further than the first
      position met from there. */
  lemma BackToFirst(n: nat, from: nat, x: nat, y: nat, first: nat)
    requires from < n && x < n && y < n && first < n && !Before(n, from, x, y)
    requires Dist(n, from, first) <= Dist(n, from, y)
    requires Dist(n, Succ(n, x), y) <= Dist(n, Succ(n, x), first)
    ensures y == first
  {}

  lemma FirstTurnIsNearest(live: seq<bool>, from: nat)
    requires from < |live| && AnyLive(live)
    ensures Turn(live, from, 0) == from
    ensures live[Turn(live, from, 1)]
    ensures !live[from] ==>
              forall x | 0 <= x < |live| && live[x] :: Dist(|live|, from, Turn(live, from, 1)) <= Dist(|live|, from, x)
  {
    FirstLiveIsNearest(live, Succ(|live|, from));
  }

  /** No position is met twice in one round. */
  lemma TurnDiffers(live: seq<bool>, from: nat, s: nat, t: nat)
    requires from < |live| && 1 <= s < t <= |Members(live)|
    ensures Turn(live, from, s) != Turn(live, from, t)
  {
    var x := Turn(live, from, t);
    MembersIffLive(live);
    FirstLiveIsNearest(live, Succ(|live|, Turn(live, from, t - 1)));
    if Turn(live, from, s) == x {
      VisitsGrow(live, from, 0, s, x);
      VisitsGrow(live, from, s, t, x);
      VisitsGrow(live, from, t, |Members(live)|, x);
      RoundIsFair(live, from, x);
    }
  }

  lemma {:induction false} Ascends(live: seq<bool>, from: nat, i: nat, j: nat)
    requires from < |live| && !live[from] && 1 <= i < j <= |Members(live)|
    ensures Before(|live|, from, Turn(live, from, i), Turn(live, from, j))
  {
    hide Turn;
    RoundAscends(live, from, j - 1);
    if i < j - 1 {
      Ascends(live, from, i, j - 1);
    }
  }

  // A round over part of the live positions

  /** The positions of `part` come first among the live ones, seen from `from`. */
  ghost predicate ComeFirst(live: seq<bool>, part: seq<bool>, from: nat)
    requires |live| == |part| && from < |live|
  {
    forall x, y | 0 <= x < |live| && 0 <= y < |live| && part[y] && live[x] && !part[x] ::
      Before(|live|, from, y, x)
  }

  ghost predicate Within(part: seq<bool>, live: seq<bool>) {
    |part| == |live| && forall x | 0 <= x < |part| && part[x] :: live[x]
  }

  /** Turns over `live` meet exactly `part`, once each, for as many turns as it has
      positions. */
  ghost predicate MeetsExactly(live: seq<bool>, part: seq<bool>, from: nat)
    requires |live| == |part| && from < |live|
  {
    forall x: nat | x < |live| :: Visits(live, from, |Members(part)|, x) == if part[x] then 1 else 0
  }

  lemma NextOfPart(n: nat, from: nat, s: nat, r: nat, x: nat)
    requires from < n && s < n && r < n && x < n && r != from
    requires s == from || Before(n, from, s, r)
    requires Before(n, from, r, x)
    ensures Dist(n, Succ(n, s), r) <= Dist(n, Succ(n, s), x)
  {}

  /** The next of `part` is the next live position. */
  lemma SameStep(live: seq<bool>, part: seq<bool>, from: nat, s: nat, r: nat)
    requires Within(part, live) && from < |live| && s < |live| && r < |live| && ComeFirst(live, part, from)
    requires part[r] && r != from && (s == from || Before(|live|, from, s, r))
    requires forall x | 0 <= x < |live| && part[x] ::
               Dist(|live|, Succ(|live|, s), r) <= Dist(|live|, Succ(|live|, s), x)
    ensures FirstLive(live, Succ(|live|, s)) == r
  {
    hide FirstLive, Dist, Succ;
    var n := |live|;
    forall x | 0 <= x < n && live[x]
      ensures Dist(n, Succ(n, s), r) <= Dist(n, Succ(n, s), x)
    {
      if !part[x] {
        NextOfPart(n, from, s, r, x);
      }
    }
    NearestIsFirst(live, Succ(n, s), r);
  }

  lemma {:induction false} SameTurns(live: seq<bool>, part: seq<bool>, from: nat, t: nat)
    requires Within(part, live) && from < |live| && !live[from] && t <= |Members(part)|
    requires ComeFirst(live, part, from)
    ensures Turn(live, from, t) == Turn(part, from, t)
  {
    TurnStep(live, from, 0);
    TurnStep(part, from, 0);
    hide Turn, Members, FirstLive, Dist, Succ, ComeFirst, Before;
    if t > 0 {
      SameTurns(live, part, from, t - 1);
      MembersIffLive(part);
      NextTurn(part, from, t - 1);
      if t > 1 {
        RoundAscends(part, from, t - 1);
      }
      SameStep(live, part, from, Turn(part, from, t - 1), Turn(part, from, t));
      TurnStep(live, from, t - 1);
    }
  }

  lemma {:induction false} SameVisits(live: seq<bool>, part: seq<bool>, from: nat, t: nat, x: nat)
    requires Within(part, live) && from < |live| && !live[from] && t <= |Members(part)|
    requires ComeFirst(live, part, from)
    ensures Visits(live, from, t, x) == Visits(part, from, t, x)
  {
    hide Turn, Members;
    if t > 0 {
      SameVisits(live, part, from, t - 1, x);
      SameTurns(live, part, from, t);
    }
  }

  lemma MetEarlier(live: seq<bool>, part: seq<bool>, from: nat, x: nat, y: nat)
    requires Within(part, live) && from < |live| && !live[from] && MeetsExactly(live, part, from)
    requires x < |live| && y < |live| && part[y] && live[x] && !part[x]
    ensures Before(|live|, from, y, x)
  {
    hide Turn, Members, Visits;
    var p, q := |Members(part)|, |Members(live)|;
    RoundIsFair(live, from, x);
    var i := VisitedAt(live, from, p, y);
    var j := VisitedAt(live, from, q, x);
    if j <= p {
      VisitsGrow(live, from, j - 1, j, x);
      VisitsGrow(live, from, j, p, x);
    }
    Ascends(live, from, i, j);
  }

  /** Exactly when a round as long as `part` meets `part` and nothing else. */
  lemma MeetsExactlyIff(live: seq<bool>, part: seq<bool>, from: nat)
    requires Within(part, live) && from < |live| && !live[from] && AnyLive(part)
    ensures MeetsExactly(live, part, from) <==> ComeFirst(live, part, from)
  {
    hide Turn, Members, Visits, Dist;
    if MeetsExactly(live, part, from) {
      forall x, y | 0 <= x < |live| && 0 <= y < |live| && part[y] && live[x] && !part[x]
        ensures Before(|live|, from, y, x)
      {
        MetEarlier(live, part, from, x, y);
      }
    }
    if ComeFirst(live, part, from) {
      forall x: nat | x < |live|
        ensures Visits(live, from, |Members(part)|, x) == if part[x] then 1 else 0
      {
        SameVisits(live, part, from, |Members(part)|, x);
        if part[x] {
          RoundIsFair(part, from, x);
        } else {
          NeverDead(part, from, |Members(part)|, x);
        }
      }
    }
  }

  // Where whole rounds end

  /** `b` is the last live position at or before `link`. */
  ghost predicate LastBefore(live: seq<bool>, link: nat, b: nat)
    requires link < |live|
  {
    && b < |live| && live[b]
    && forall x | 0 <= x < |live| && live[x] :: Dist(|live|, b, link) <= Dist(|live|, x, link)
  }

  /** The live position from which the next one is the one after `link` lies just
      before `link`. */
  lemma SameNext(n: nat, b: nat, x: nat, link: nat, c: nat)
    requires b < n && x < n && link < n && c < n
    requires Dist(n, Succ(n, b), c) <= Dist(n, Succ(n, b), x)
    requires Dist(n, Succ(n, link), c) <= Dist(n, Succ(n, link), b)
    ensures Dist(n, b, link) <= Dist(n, x, link)
  {}

  /** One whole round from `link` ends at the last live position before it. */
  lemma RoundEnds(live: seq<bool>, link: nat)
    requires link < |live| && AnyLive(live)
    ensures LastBefore(live, link, Turn(live, link, |Members(live)|))
  {
    hide Dist, Succ, FirstLive, Turn, Members;
    var n, k, c := |live|, |Members(live)|, Turn(live, link, 1);
    MembersIffLive(live);
    MembersSorted(live);
    TurnStep(live, link, 0);
    NextTurn(live, link, 0);
    assert c in Members(live);
    var i :| 0 <= i < k && Members(live)[i] == c;
    RoundInOrder(live, link, i, k);
    var j := Wrap(k, i, k - 1);
    var b := Members(live)[j];
    NextMember(live, j);
    assert Succ(k, j) == i by {
      WrapBack(k, i);
    }
    FirstLiveIsNearest(live, Succ(n, b));
    forall x | 0 <= x < n && live[x]
      ensures Dist(n, b, link) <= Dist(n, x, link)
    {
      SameNext(n, b, x, link, c);
    }
  }

  lemma WrapBack(k: nat, i: nat)
    requires i < k
    ensures Succ(k, Wrap(k, i, k - 1)) == i
  {}

  /** So does any positive number of them. */
  lemma {:induction false} RoundsEnd(live: seq<bool>, link: nat, rounds: nat)
    requires link < |live| && AnyLive(live) && 0 < rounds
    ensures LastBefore(live, link, Turn(live, link, Times(|Members(live)|, rounds)))
    decreases rounds
  {
    hide Dist, Turn, Members, FirstLive;
    var k := |Members(live)|;
    RoundEnds(live, link);
    if rounds > 1 {
      var b := Turn(live, link, k);
      RoundsEnd(live, b, rounds - 1);
      Stays(live, b, Turn(live, b, Times(k, rounds - 1)));
      TurnsCompose(live, link, k, Times(k, rounds - 1), 0);
    }
  }

  lemma Stays(live: seq<bool>, b: nat, b': nat)
    requires b < |live| && live[b] && LastBefore(live, b, b')
    ensures b' == b
  {
    assert Dist(|live|, b, b) == 0;
  }

  /** From the end of the ring, that is the highest live position. */
  lemma EndsAtHighest(live: seq<bool>, b: nat)
    requires 0 < |live| && LastBefore(live, |live| - 1, b)
    ensures b == Highest(live)
  {
    assert AnyLive(live);
  }
}
