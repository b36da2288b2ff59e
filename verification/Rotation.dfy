/** Going round a ring of links or slots and stopping only at the live ones: the
    search shared by `nextValidLink`, the weighted flowcell loop and random packet
    spraying, and why it is fair. */
module Rotation {

  /** Position `start` moved `steps` places round a ring of `n`. */
  function Wrap(n: nat, start: nat, steps: nat): (r: nat)
    requires start < n && steps <= n
    ensures r < n
  {
    if start + steps < n then start + steps else start + steps - n
  }

  function Succ(n: nat, i: nat): (r: nat)
    requires i < n
    ensures r < n && r == (i + 1) % n
  {
    if i + 1 < n then i + 1 else 0
  }

  /** How many places round the ring from `from` to `to`. */
  function Dist(n: nat, from: nat, to: nat): (d: nat)
    requires from < n && to < n
    ensures d < n && Wrap(n, from, d) == to
  {
    if from <= to then to - from else to + n - from
  }

  ghost predicate AnyLive(live: seq<bool>) {
    exists x | 0 <= x < |live| :: live[x]
  }

  function Offset(live: seq<bool>, start: nat, d: nat): (r: nat)
    requires start < |live| && d <= |live|
    ensures d <= r <= |live|
    ensures forall i | d <= i < r :: !live[Wrap(|live|, start, i)]
    ensures r < |live| ==> live[Wrap(|live|, start, r)]
    decreases |live| - d
  {
    if d == |live| || live[Wrap(|live|, start, d)] then d else Offset(live, start, d + 1)
  }

  /** The first live position met from `start` on; `start` when there is none. */
  function FirstLive(live: seq<bool>, start: nat): (r: nat)
    requires start < |live|
    ensures r < |live|
  {
    Wrap(|live|, start, Offset(live, start, 0))
  }

  lemma FirstLiveIsNearest(live: seq<bool>, start: nat)
    requires start < |live| && AnyLive(live)
    ensures var r := FirstLive(live, start);
            && live[r]
            && Dist(|live|, start, r) == Offset(live, start, 0)
            && forall x | 0 <= x < |live| && live[x] :: Dist(|live|, start, r) <= Dist(|live|, start, x)
  {
    var n, d := |live|, Offset(live, start, 0);
    forall x | 0 <= x < n && live[x]
      ensures d <= Dist(n, start, x)
    {
      assert Wrap(n, start, Dist(n, start, x)) == x;
    }
    var x :| 0 <= x < n && live[x];
    assert d < n;
  }

  /** One step round the ring towards a target not yet reached. */
  lemma StepCloser(n: nat, from: nat, link: nat, target: nat)
    requires from < n && link < n && target < n && link != target
    requires Dist(n, from, link) + Dist(n, link, target) == Dist(n, from, target)
    ensures Dist(n, from, Succ(n, link)) + Dist(n, Succ(n, link), target) == Dist(n, from, target)
    ensures Dist(n, Succ(n, link), target) < Dist(n, link, target)
  {}

  /** Walking from `from` cannot pass the first live position. */
  lemma ReachedFirst(live: seq<bool>, from: nat, link: nat)
    requires from < |live| && link < |live| && live[link]
    requires var target := FirstLive(live, from);
             Dist(|live|, from, link) + Dist(|live|, link, target) == Dist(|live|, from, target)
    ensures link == FirstLive(live, from)
  {
    FirstLiveIsNearest(live, from);
  }

  /** Where a search that looks at every position in turn ends. */
  lemma SearchEnds(live: seq<bool>, start: nat, steps: nat)
    requires start < |live| && steps <= |live|
    requires forall k | 0 <= k < steps :: !live[Wrap(|live|, start, k)]
    requires steps == |live| || live[Wrap(|live|, start, steps)]
    ensures FirstLive(live, start) == Wrap(|live|, start, steps)
    ensures AnyLive(live) <==> steps < |live|
  {
    assert !(Offset(live, start, 0) < steps) && !(steps < Offset(live, start, 0));
    if AnyLive(live) {
      FirstLiveIsNearest(live, start);
    }
  }

  lemma NearestIsFirst(live: seq<bool>, start: nat, r: nat)
    requires start < |live| && r < |live| && live[r]
    requires forall x | 0 <= x < |live| && live[x] :: Dist(|live|, start, r) <= Dist(|live|, start, x)
    ensures FirstLive(live, start) == r
  {
    FirstLiveIsNearest(live, start);
  }

  // The live positions in order

  function Members(live: seq<bool>): seq<nat> {
    if live == [] then []
    else
      var n := |live| - 1;
      Members(live[..n]) + if live[n] then [n] else []
  }

  lemma {:induction false} MembersSorted(live: seq<bool>)
    ensures forall i | 0 <= i < |Members(live)| :: Members(live)[i] < |live| && live[Members(live)[i]]
    ensures forall i, j | 0 <= i < j < |Members(live)| :: Members(live)[i] < Members(live)[j]
    ensures forall x: nat | x < |live| && live[x] :: x in Members(live)
  {
    if live != [] {
      MembersSorted(live[..|live| - 1]);
    }
  }

  lemma MembersIffLive(live: seq<bool>)
    ensures AnyLive(live) <==> 0 < |Members(live)|
  {
    MembersSorted(live);
    if 0 < |Members(live)| {
      assert live[Members(live)[0]];
    }
    if AnyLive(live) {
      var x: nat :| x < |live| && live[x];
      assert x in Members(live);
    }
  }

  lemma NextMember(live: seq<bool>, i: nat)
    requires i < |Members(live)|
    ensures var ms := Members(live);
            && ms[i] < |live|
            && FirstLive(live, Succ(|live|, ms[i])) == ms[Succ(|ms|, i)]
  {
    MembersSorted(live);
    var ms, n := Members(live), |live|;
    var start, r := Succ(n, ms[i]), ms[Succ(|ms|, i)];
    forall x | 0 <= x < n && live[x]
      ensures Dist(n, start, r) <= Dist(n, start, x)
    {
      assert x in ms;
      var j :| 0 <= j < |ms| && ms[j] == x;
      assert j <= i || j == i + 1 || i + 1 < j;
      assert ms[0] <= x <= ms[|ms| - 1];
    }
    NearestIsFirst(live, start, r);
  }

  // Turns

  /** Where the rotation stands after `t` turns from `link`. */
  function Turn(live: seq<bool>, link: nat, t: nat): (r: nat)
    requires link < |live|
    ensures r < |live|
  {
    if t == 0 then link else FirstLive(live, Succ(|live|, Turn(live, link, t - 1)))
  }

  lemma TurnStep(live: seq<bool>, link: nat, t: nat)
    requires link < |live|
    ensures Turn(live, link, 0) == link
    ensures Turn(live, link, t + 1) == FirstLive(live, Succ(|live|, Turn(live, link, t)))
  {}

  /** How many of the first `t` turns from `link` land on `x`. */
  function Visits(live: seq<bool>, link: nat, t: nat, x: nat): nat
    requires link < |live|
  {
    if t == 0 then 0 else Visits(live, link, t - 1, x) + if Turn(live, link, t) == x then 1 else 0
  }

  lemma {:induction false} TurnsCompose(live: seq<bool>, link: nat, t: nat, u: nat, x: nat)
    requires link < |live|
    ensures Turn(live, link, t + u) == Turn(live, Turn(live, link, t), u)
    ensures Visits(live, link, t + u, x) == Visits(live, link, t, x) + Visits(live, Turn(live, link, t), u, x)
  {
    hide FirstLive;
    if u > 0 {
      TurnsCompose(live, link, t, u - 1, x);
    }
  }

  lemma TurnOnce(live: seq<bool>, link: nat, t: nat)
    requires link < |live|
    ensures Turn(live, Turn(live, link, t), 1) == Turn(live, link, t + 1)
  {
    TurnStep(live, Turn(live, link, t), 0);
  }

  /** The picks of successive turns from `link`. */
  ghost predicate AreTurns(picks: seq<nat>, live: seq<bool>, link: nat)
    requires link < |live|
  {
    forall i | 0 <= i < |picks| :: picks[i] == Turn(live, link, i + 1)
  }

  lemma {:induction false} PicksAreVisits(picks: seq<nat>, live: seq<bool>, link: nat, x: nat)
    requires link < |live| && AreTurns(picks, live, link)
    ensures multiset(picks)[x] == Visits(live, link, |picks|, x)
  {
    hide Turn;
    if picks != [] {
      var init, last := picks[..|picks| - 1], picks[|picks| - 1];
      PicksAreVisits(init, live, link, x);
      assert picks == init + [last];
    }
  }

  /** One round visits the members in order, starting anywhere. */
  lemma {:induction false} RoundInOrder(live: seq<bool>, link: nat, i: nat, t: nat)
    requires link < |live| && i < |Members(live)| && 1 <= t <= |Members(live)|
    requires Turn(live, link, 1) == Members(live)[i]
    ensures Turn(live, link, t) == Members(live)[Wrap(|Members(live)|, i, t - 1)]
  {
    if t > 1 {
      RoundInOrder(live, link, i, t - 1);
      NextMember(live, Wrap(|Members(live)|, i, t - 2));
    }
  }

  lemma {:induction false} VisitsInRound(live: seq<bool>, link: nat, i: nat, j: nat, t: nat)
    requires link < |live| && i < |Members(live)| && j < |Members(live)| && t <= |Members(live)|
    requires Turn(live, link, 1) == Members(live)[i]
    ensures Visits(live, link, t, Members(live)[j]) == if Dist(|Members(live)|, i, j) < t then 1 else 0
  {
    hide FirstLive, Turn;
    if t > 0 {
      VisitsInRound(live, link, i, j, t - 1);
      RoundInOrder(live, link, i, t);
      MembersSorted(live);
    }
  }

  /** Fairness: from any position, one round of as many turns as there are live
      positions lands on each of them exactly once. */
  lemma RoundIsFair(live: seq<bool>, link: nat, x: nat)
    requires link < |live| && x < |live| && live[x]
    ensures Visits(live, link, |Members(live)|, x) == 1
  {
    MembersSorted(live);
    FirstLiveIsNearest(live, Succ(|live|, link));
    var ms := Members(live);
    assert x in ms && Turn(live, link, 0) == link && Turn(live, link, 1) in ms;
    var i, j :| 0 <= i < |ms| && 0 <= j < |ms| && ms[i] == Turn(live, link, 1) && ms[j] == x;
    VisitsInRound(live, link, i, j, |ms|);
  }

  /** Each live position once, and no other. */
  ghost predicate OnceEach(picks: seq<nat>, live: seq<bool>) {
    forall x: nat | x < |live| :: multiset(picks)[x] == if live[x] then 1 else 0
  }

  /** As many successive picks as there are live positions are each of them once. */
  lemma RoundOfPicks(picks: seq<nat>, live: seq<bool>, link: nat)
    requires link < |live| && AnyLive(live) && AreTurns(picks, live, link) && |picks| == |Members(live)|
    ensures OnceEach(picks, live)
  {
    hide Turn, Members, Visits;
    forall x: nat | x < |live|
      ensures multiset(picks)[x] == if live[x] then 1 else 0
    {
      PicksAreVisits(picks, live, link, x);
      if live[x] {
        RoundIsFair(live, link, x);
      } else {
        NeverDead(live, link, |picks|, x);
      }
    }
  }

  function Times(k: nat, n: nat): nat {
    if n == 0 then 0 else k + Times(k, n - 1)
  }

  lemma NextTimes(k: nat, n: nat)
    ensures Times(k, n + 1) == Times(k, n) + k
  {}

  lemma {:induction false} TimesZero(n: nat)
    ensures Times(0, n) == 0
  {
    if n > 0 {
      TimesZero(n - 1);
    }
  }

  lemma {:induction false} TimesIsProduct(k: nat, n: nat)
    ensures Times(k, n) == k * n
  {
    if n > 0 {
      TimesIsProduct(k, n - 1);
      assert k * n == k + k * (n - 1);
    }
  }

  /** Over any whole number of rounds the turns are shared equally. */
  lemma {:induction false} RoundsAreFair(live: seq<bool>, link: nat, rounds: nat, x: nat)
    requires link < |live| && x < |live| && live[x]
    ensures Visits(live, link, Times(|Members(live)|, rounds), x) == rounds
    decreases rounds
  {
    if rounds > 0 {
      hide Visits, Turn, Members;
      var k := |Members(live)|;
      RoundIsFair(live, link, x);
      TurnsCompose(live, link, k, Times(k, rounds - 1), x);
      RoundsAreFair(live, Turn(live, link, k), rounds - 1, x);
    }
  }

  lemma {:induction false} NeverDead(live: seq<bool>, link: nat, t: nat, x: nat)
    requires link < |live| && AnyLive(live) && x < |live| && !live[x]
    ensures Visits(live, link, t, x) == 0
  {
    if t > 0 {
      NeverDead(live, link, t - 1, x);
      FirstLiveIsNearest(live, Succ(|live|, Turn(live, link, t - 1)));
    }
  }
}
