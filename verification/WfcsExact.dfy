/** Exactly when the flowcell schedule of WFCS is met, in terms of where the links
    stand on the ring. */
module ExactSchedule {
  import opened Arith
  import opened Rotation
  import opened RingOrder
  import opened FlowcellSchedule

  /** `part` holds the links that are due one flowcell in each period; `u.weak` may
      hold more. */
  ghost predicate Suits(u: Plan, ratio: nat, part: seq<bool>) {
    && Sound(u) && 0 < ratio && Within(part, u.weak) && AnyLive(part)
    && u.rfactor == Times(|Members(u.healthy)|, ratio) && u.partials == |Members(part)|
    && forall x | 0 <= x < |u.healthy| :: !(u.healthy[x] && u.weak[x])
  }

  function Due(u: Plan, ratio: nat, part: seq<bool>, x: nat): nat
    requires x < |u.healthy| == |part|
  {
    if u.healthy[x] then ratio else if part[x] then 1 else 0
  }

  /** Every period gives every link its due. */
  ghost predicate Exact(u: Plan, ratio: nat, part: seq<bool>)
    requires Sound(u) && |u.healthy| == |part|
  {
    forall k: nat, x: nat | x < |u.healthy| :: InPeriod(u, k, x) == Due(u, ratio, part, x)
  }

  ghost function InPeriod(u: Plan, k: nat, x: nat): nat
    requires Sound(u)
  {
    CellsOn(u, Times(Period(u), k), Period(u), x)
  }

  /** Going round from the highest healthy link, the links of `part` come before the
      other weak ones, and no healthy link stands between two of them. */
  ghost predicate OneStretch(healthy: seq<bool>, weak: seq<bool>, part: seq<bool>)
    requires |healthy| == |weak| == |part| && AnyLive(healthy)
  {
    var n, h := |healthy|, Highest(healthy);
    && ComeFirst(weak, part, h)
    && forall x, y, z | 0 <= x < n && 0 <= y < n && 0 <= z < n && healthy[x] && part[y] && part[z] ::
         !(Before(n, h, y, x) && Before(n, h, x, z))
  }

  /** The last healthy link of period `k`, where its weak turns start. */
  ghost function Home(u: Plan, k: nat): (h: nat)
    requires Sound(u)
    ensures h < |u.healthy|
  {
    After(u, Times(Period(u), k) + u.rfactor).linkId
  }

  lemma SuitsMore(u: Plan, ratio: nat, part: seq<bool>)
    requires Suits(u, ratio, part)
    ensures Alternates(u) && AnyLive(u.healthy)
  {
    MembersIffLive(part);
    MembersIffLive(u.healthy);
    TimesZero(ratio);
  }

  /** The weak turns of a period start at the last healthy link before its start. */
  lemma HomeIs(u: Plan, ratio: nat, part: seq<bool>, k: nat)
    requires Suits(u, ratio, part)
    ensures AnyLive(u.healthy) && u.healthy[Home(u, k)] && !u.weak[Home(u, k)]
    ensures LastBefore(u.healthy, After(u, Times(Period(u), k)).linkId, Home(u, k))
  {
    hide After, Turn, Dist, Members, Times;
    SuitsMore(u, ratio, part);
    PeriodStarts(u, k);
    HealthyPhase(u, Times(Period(u), k), u.rfactor);
    RoundsEnd(u.healthy, After(u, Times(Period(u), k)).linkId, ratio);
  }

  lemma FirstHome(u: Plan, ratio: nat, part: seq<bool>)
    requires Suits(u, ratio, part)
    ensures AnyLive(u.healthy) && Home(u, 0) == Highest(u.healthy)
  {
    HomeIs(u, ratio, part, 0);
    assert After(u, Times(Period(u), 0)).linkId == |u.healthy| - 1;
    EndsAtHighest(u.healthy, Home(u, 0));
  }

  /** The next period starts from the last weak link of this one. */
  lemma NextHome(u: Plan, ratio: nat, part: seq<bool>, k: nat)
    requires Suits(u, ratio, part)
    ensures LastBefore(u.healthy, Turn(u.weak, Home(u, k), |Members(part)|), Home(u, k + 1))
  {
    hide After, Turn, Dist, Members, LastBefore, Times;
    SuitsMore(u, ratio, part);
    NextTimes(Period(u), k);
    PeriodStarts(u, k);
    PeriodEnds(u, Times(Period(u), k));
    HomeIs(u, ratio, part, k + 1);
  }

  /** A period gives every link its due exactly when its weak turns meet `part`. */
  lemma PeriodExactIff(u: Plan, ratio: nat, part: seq<bool>, k: nat)
    requires Suits(u, ratio, part)
    ensures (forall x: nat | x < |u.healthy| :: InPeriod(u, k, x) == Due(u, ratio, part, x)) <==>
            ComeFirst(u.weak, part, Home(u, k))
  {
    hide After, Turn, Visits, Dist, Members, Times, CellsOn, ComeFirst;
    SuitsMore(u, ratio, part);
    HomeIs(u, ratio, part, k);
    MeetsExactlyIff(u.weak, part, Home(u, k));
    forall x: nat | x < |u.healthy|
      ensures InPeriod(u, k, x) == Due(u, ratio, part, x) <==>
              Visits(u.weak, Home(u, k), |Members(part)|, x) == if part[x] then 1 else 0
    {
      InPeriodIs(u, ratio, part, k, x);
    }
  }

  lemma InPeriodIs(u: Plan, ratio: nat, part: seq<bool>, k: nat, x: nat)
    requires Suits(u, ratio, part) && x < |u.healthy|
    ensures InPeriod(u, k, x) ==
            (if u.healthy[x] then ratio else 0) + Visits(u.weak, Home(u, k), |Members(part)|, x)
    ensures u.healthy[x] ==> Visits(u.weak, Home(u, k), |Members(part)|, x) == 0
  {
    hide After, Turn, Visits, Members, Times, CellsOn;
    SuitsMore(u, ratio, part);
    var start := Times(Period(u), k);
    PeriodStarts(u, k);
    PeriodVisits(u, start, x);
    if u.healthy[x] {
      RoundsAreFair(u.healthy, After(u, start).linkId, ratio, x);
      NeverDead(u.weak, Home(u, k), |Members(part)|, x);
    } else {
      NeverDead(u.healthy, After(u, start).linkId, u.rfactor, x);
    }
  }

  // Positions on the ring

  lemma BeforeFromLater(n: nat, h: nat, g: nat, y: nat, x: nat)
    requires h < n && g < n && y < n && x < n && Before(n, h, g, y) && Before(n, h, y, x)
    ensures Before(n, g, y, x)
  {}

  lemma BehindFromLater(n: nat, h: nat, g: nat, y: nat, m: nat)
    requires h < n && g < n && y < n && m < n && Before(n, h, y, g) && Before(n, h, g, m)
    ensures !Before(n, g, y, m)
  {}

  /** Closer to `z` from behind is further from `h`, when both stand before `z`. */
  lemma CloserIsLater(n: nat, h: nat, x: nat, g: nat, z: nat)
    requires h < n && x < n && g < n && z < n && g != z
    requires Dist(n, h, x) < Dist(n, h, z) && Dist(n, g, z) <= Dist(n, x, z)
    ensures Dist(n, h, x) <= Dist(n, h, g) < Dist(n, h, z)
  {}

  /** `g` stands before every link of `part`. */
  ghost predicate StandsBefore(h: nat, g: nat, part: seq<bool>)
    requires h < |part| && g < |part|
  {
    forall y | 0 <= y < |part| && part[y] :: Before(|part|, h, g, y)
  }

  lemma LastMetIn(part: seq<bool>, from: nat, z: nat)
    requires from < |part| && !part[from] && z < |part| && part[z]
    ensures var last := Turn(part, from, |Members(part)|);
            part[last] && Dist(|part|, from, z) <= Dist(|part|, from, last)
  {
    hide Turn, Members, Visits, Dist;
    var p := |Members(part)|;
    RoundIsFair(part, from, z);
    var i := VisitedAt(part, from, p, z);
    NextTurn(part, from, p - 1);
    if i < p {
      Ascends(part, from, i, p);
    }
  }

  /** When `part` stands in one stretch, every period leaves the next one in front
      of it. */
  lemma {:induction false} AllHomes(u: Plan, ratio: nat, part: seq<bool>, k: nat)
    requires Suits(u, ratio, part) && AnyLive(u.healthy) && OneStretch(u.healthy, u.weak, part)
    ensures StandsBefore(Highest(u.healthy), Home(u, k), part)
    ensures ComeFirst(u.weak, part, Home(u, k))
  {
    hide Dist, Turn, Members, After;
    var n, h, g := |part|, Highest(u.healthy), Home(u, k);
    HomeIs(u, ratio, part, k);
    if k == 0 {
      FirstHome(u, ratio, part);
      AtItself(n, h);
    } else {
      AllHomes(u, ratio, part, k - 1);
      AdvanceHome(u, ratio, part, k - 1);
    }
    forall x, y | 0 <= x < n && 0 <= y < n && part[y] && u.weak[x] && !part[x]
      ensures Before(n, g, y, x)
    {
      BeforeFromLater(n, h, g, y, x);
    }
  }

  lemma AtItself(n: nat, h: nat)
    requires h < n
    ensures forall y | 0 <= y < n && y != h :: Before(n, h, h, y)
  {}

  lemma AdvanceHome(u: Plan, ratio: nat, part: seq<bool>, k: nat)
    requires Suits(u, ratio, part) && AnyLive(u.healthy) && OneStretch(u.healthy, u.weak, part)
    requires StandsBefore(Highest(u.healthy), Home(u, k), part) && ComeFirst(u.weak, part, Home(u, k))
    ensures StandsBefore(Highest(u.healthy), Home(u, k + 1), part)
  {
    hide Dist, Turn, Members, After, ComeFirst;
    var n, h, g' := |part|, Highest(u.healthy), Home(u, k + 1);
    HomeIs(u, ratio, part, k + 1);
    var z := EndsOnPart(u, ratio, part, k);
    AtItself(n, h);
    CloserIsLater(n, h, h, g', z);
    forall y | 0 <= y < n && part[y]
      ensures Before(n, h, g', y)
    {
      assert !Before(n, h, y, g');
      NotBehind(n, h, g', y);
    }
  }

  /** The weak turns of a period end on a link of `part`. */
  lemma EndsOnPart(u: Plan, ratio: nat, part: seq<bool>, k: nat) returns (z: nat)
    requires Suits(u, ratio, part) && ComeFirst(u.weak, part, Home(u, k))
    ensures z < |part| && part[z] && LastBefore(u.healthy, z, Home(u, k + 1))
  {
    hide Dist, Turn, Members, After, ComeFirst, LastBefore;
    var g := Home(u, k);
    HomeIs(u, ratio, part, k);
    NextHome(u, ratio, part, k);
    SameTurns(u.weak, part, g, |Members(part)|);
    z := Turn(part, g, |Members(part)|);
    var some :| 0 <= some < |part| && part[some];
    LastMetIn(part, g, some);
  }

  lemma NotBehind(n: nat, h: nat, x: nat, y: nat)
    requires h < n && x < n && y < n && x != y && !Before(n, h, y, x)
    ensures Before(n, h, x, y)
  {}

  /** Starting over at a link `x` between two of `part` meets `m` before the ones
      that stand behind. */
  lemma Overtaken(n: nat, h: nat, g: nat, last: nat, x: nat, y: nat, m: nat)
    requires h < n && g < n && last < n && x < n && y < n && m < n && g != last
    requires Before(n, h, y, x) && Before(n, h, x, last) && Before(n, h, last, m)
    requires Dist(n, g, last) <= Dist(n, x, last)
    ensures !Before(n, g, y, m)
  {
    hide Dist;
    CloserIsLater(n, h, x, g, last);
    BehindFromLater(n, h, g, y, m);
  }

  /** The first two periods already need the stretch. */
  lemma TwoPeriodsSuffice(u: Plan, ratio: nat, part: seq<bool>, m: nat)
    requires Suits(u, ratio, part) && m < |part| && u.weak[m] && !part[m] && AnyLive(u.healthy)
    requires ComeFirst(u.weak, part, Home(u, 0)) && ComeFirst(u.weak, part, Home(u, 1))
    ensures OneStretch(u.healthy, u.weak, part)
  {
    hide Dist, Turn, Members, After;
    var n, h, g := |part|, Highest(u.healthy), Home(u, 1);
    FirstHome(u, ratio, part);
    HomeIs(u, ratio, part, 0);
    HomeIs(u, ratio, part, 1);
    NextHome(u, ratio, part, 0);
    SameTurns(u.weak, part, h, |Members(part)|);
    var last := Turn(part, h, |Members(part)|);
    forall x, y, z | 0 <= x < n && 0 <= y < n && 0 <= z < n && u.healthy[x] && part[y] && part[z]
      ensures !(Before(n, h, y, x) && Before(n, h, x, z))
    {
      LastMetIn(part, h, z);
      if Before(n, h, y, x) && Before(n, h, x, z) {
        Overtaken(n, h, g, last, x, y, m);
      }
    }
  }

  /** Exactly when every period is right: either every weak link is due one, or the
      due ones stand in one stretch. */
  lemma ExactIff(u: Plan, ratio: nat, part: seq<bool>)
    requires Suits(u, ratio, part)
    ensures AnyLive(u.healthy)
    ensures Exact(u, ratio, part) <==> part == u.weak || OneStretch(u.healthy, u.weak, part)
  {
    hide Home, ComeFirst, OneStretch, Due, InPeriod;
    SuitsMore(u, ratio, part);
    if Exact(u, ratio, part) && part != u.weak {
      PeriodExactIff(u, ratio, part, 0);
      PeriodExactIff(u, ratio, part, 1);
      var m: nat :| m < |part| && u.weak[m] && !part[m];
      TwoPeriodsSuffice(u, ratio, part, m);
    }
    if part == u.weak || OneStretch(u.healthy, u.weak, part) {
      forall k: nat, x: nat | x < |u.healthy|
        ensures InPeriod(u, k, x) == Due(u, ratio, part, x)
      {
        PeriodExactIff(u, ratio, part, k);
        if part == u.weak {
          NothingElse(part, Home(u, k));
        } else {
          AllHomes(u, ratio, part, k);
        }
      }
    }
  }

  lemma NothingElse(part: seq<bool>, from: nat)
    requires from < |part|
    ensures ComeFirst(part, part, from)
  {}

  // Without a link that is due one flowcell in each period

  /** While the link before each unchecked turn is the end of the ring and the first
      link is healthy, unchecked turns change nothing. */
  lemma {:induction false} AsIfChecked(u: Plan, ratio: nat, j: nat)
    requires Sound(u) && u.rfactor == Times(|Members(u.healthy)|, ratio) && !AnyLive(u.weak)
    requires u.healthy[0] && u.healthy[|u.healthy| - 1]
    ensures After(u, j).linkId == Turn(u.healthy, |u.healthy| - 1, j)
  {
    hide After, Turn, FirstLive, Members, Times;
    var n := |u.healthy|;
    TurnStep(u.healthy, n - 1, 0);
    if j == 0 {
      AtStart(u);
    } else {
      AsIfChecked(u, ratio, j - 1);
      UncheckedTurn(u, j - 1);
      TurnStep(u.healthy, n - 1, j - 1);
      if j > 1 && (j - 1) % u.rfactor == 0 {
        EndOfRounds(u, ratio, j - 1);
        FirstIsLive(u.healthy);
      }
    }
  }

  lemma AtStart(u: Plan)
    requires Sound(u)
    ensures After(u, 0).linkId == |u.healthy| - 1 && After(u, 0).toggle == 0
    ensures After(u, 0).flowCellMod == u.cell * u.rfactor
  {}

  lemma FirstIsLive(live: seq<bool>)
    requires 0 < |live| && live[0]
    ensures Succ(|live|, |live| - 1) == 0 && FirstLive(live, 0) == 0
  {}

  /** Whole turns of the healthy links end at the end of the ring. */
  lemma EndOfRounds(u: Plan, ratio: nat, j: nat)
    requires Sound(u) && u.rfactor == Times(|Members(u.healthy)|, ratio)
    requires u.healthy[|u.healthy| - 1] && 0 < j && j % u.rfactor == 0
    ensures Turn(u.healthy, |u.healthy| - 1, j) == |u.healthy| - 1
  {
    hide Turn, Members, Dist;
    var m, q, n := |Members(u.healthy)|, j / u.rfactor, |u.healthy|;
    TimesIsProduct(m, ratio);
    Associate(m, ratio, q);
    ProductPositive(ratio, q, u.rfactor, m, j);
    TimesIsProduct(m, ratio * q);
    RoundsEnd(u.healthy, n - 1, ratio * q);
    Stays(u.healthy, n - 1, Turn(u.healthy, n - 1, j));
  }

  lemma ProductPositive(ratio: nat, q: nat, r: nat, m: nat, j: nat)
    requires r == m * ratio && 0 < j && j == r * q
    ensures 0 < ratio * q
  {
    assert ratio != 0 && q != 0;
    ProductAtLeast(ratio, q);
  }

  /** The link of the first flowcell after the first healthy turns. */
  lemma FirstWeakTurn(u: Plan, ratio: nat)
    requires Sound(u) && 0 < ratio && u.rfactor == Times(|Members(u.healthy)|, ratio) && AnyLive(u.healthy)
    ensures var next := Succ(|u.healthy|, Highest(u.healthy));
            CellLink(u, u.rfactor) == if AnyLive(u.weak) then FirstLive(u.weak, next) else next
  {
    hide After, Turn, FirstLive, Members, Times, Dist, Highest;
    AtStart(u);
    HealthyPhase(u, 0, u.rfactor);
    RoundsEnd(u.healthy, |u.healthy| - 1, ratio);
    EndsAtHighest(u.healthy, After(u, u.rfactor).linkId);
    CellRemainder(u.cell, u.rfactor, u.rfactor);
    AfterStep(u, u.rfactor);
  }

  /** With no link due one flowcell in each period, every flowcell takes a healthy
      link exactly when there is no weak link at all and the two ends of the ring
      are healthy. */
  lemma AlwaysHealthyIff(u: Plan, ratio: nat)
    requires Sound(u) && 0 < ratio && u.rfactor == Times(|Members(u.healthy)|, ratio) && AnyLive(u.healthy)
    requires forall x | 0 <= x < |u.healthy| :: !(u.healthy[x] && u.weak[x])
    ensures (forall j: nat :: u.healthy[CellLink(u, j)]) <==>
            !AnyLive(u.weak) && u.healthy[0] && u.healthy[|u.healthy| - 1]
  {
    hide After, Turn, Members, Times, Dist, FirstLive;
    var n, h := |u.healthy|, Highest(u.healthy);
    if forall j: nat :: u.healthy[CellLink(u, j)] {
      FirstWeakTurn(u, ratio);
      assert u.healthy[CellLink(u, u.rfactor)];
      if AnyLive(u.weak) {
        FirstLiveIsNearest(u.weak, Succ(n, h));
      }
    }
    if !AnyLive(u.weak) && u.healthy[0] && u.healthy[n - 1] {
      forall j: nat
        ensures u.healthy[CellLink(u, j)]
      {
        AsIfChecked(u, ratio, j + 1);
        NextTurn(u.healthy, n - 1, j);
      }
    }
  }

  /** One packet to a flowcell and one flowcell to a turn: where the second goes. */
  lemma SecondFlowcell(u: Plan)
    requires Sound(u) && u.cell == 1 && u.rfactor == 1
    ensures var next := Succ(|u.healthy|, FirstLive(u.healthy, 0));
            CellLink(u, 1) == if AnyLive(u.weak) then FirstLive(u.weak, next) else next
  {
    AfterStep(u, 0);
    AfterStep(u, 1);
  }
}

/** What that means for a list of failures. */
module WfcsConditions {
  import opened Rotation
  import opened RingOrder
  import opened SpineClasses
  import opened FlowcellSchedule
  import opened WeightedFlowcells
  import opened ExactSchedule

  /** Going round from the highest healthy spine, the partially failed spines come
      before those that only list a partial failure first, and no healthy spine
      stands between two of them. */
  ghost predicate PartialsInOneStretch(u: Setup)
    requires Facing(u)
  {
    SomeHealthy(u);
    OneStretch(FailedMask(u, 0), FailedMask(u, 1), Mask(Classes(u.fs, u.pair, u.n), DirectPartial))
  }

  lemma SomeHealthy(u: Setup)
    requires Facing(u)
    ensures AnyLive(FailedMask(u, 0))
  {
    HealthyAgree(u);
    MembersIffLive(FailedMask(u, 0));
  }

  /** The first failure listed on a partially failed spine is partial; the reverse
      holds when the classes agree. */
  lemma PartialsAreWeak(u: Setup)
    ensures var partials := Mask(Classes(u.fs, u.pair, u.n), DirectPartial);
            Within(partials, FailedMask(u, 1)) && (Agree(u) <==> partials == FailedMask(u, 1))
  {
    var partials, weak := Mask(Classes(u.fs, u.pair, u.n), DirectPartial), FailedMask(u, 1);
    forall s: nat | s < u.n {
      SpineFailedMeans(u.fs, u.pair, s);
    }
    if Agree(u) {
      assert partials == weak;
    }
    if partials == weak {
      forall s: nat | s < u.n
        ensures SpineFailed(u.fs, u.pair, s) ==
                match ClassOf(u.fs, u.pair, s)
                case DirectFull => 2
                case DirectPartial => 1
                case _ => 0
      {
        assert partials[s] == weak[s];
      }
    }
  }

  /** Exactly when the WFCS schedule is met in every period. */
  lemma WfcsScheduleIff(u: Setup)
    requires Facing(u) && 0 < NumPartial(u)
    ensures Sound(PlanOf(u))
    ensures (forall k: nat, x: nat | x < u.n :: InPeriod(PlanOf(u), k, x) == Share(u, x)) <==>
            Agree(u) || PartialsInOneStretch(u)
  {
    var plan, partials := PlanOf(u), Mask(Classes(u.fs, u.pair, u.n), DirectPartial);
    FacingIsSound(u);
    HealthyAgree(u);
    SomeHealthy(u);
    PartialsAreWeak(u);
    TallyIsMembers(Classes(u.fs, u.pair, u.n), DirectPartial);
    MembersIffLive(partials);
    ShareIsDue(u);
    hide Agree, OneStretch, InPeriod, Due, Share, Members, NumDirect;
    ExactIff(plan, u.ratio, partials);
  }

  lemma ShareIsDue(u: Setup)
    requires Facing(u)
    ensures var plan, partials := PlanOf(u), Mask(Classes(u.fs, u.pair, u.n), DirectPartial);
            |plan.healthy| == |partials| == u.n &&
            forall x: nat | x < u.n :: Due(plan, u.ratio, partials, x) == Share(u, x)
  {
    HealthyAgree(u);
  }

  /** With full failures only: exactly when no flowcell takes a failed spine. */
  lemma NoPartialIff(u: Setup)
    requires Facing(u) && NumPartial(u) == 0
    ensures Sound(PlanOf(u))
    ensures (forall j: nat :: SpineFailed(u.fs, u.pair, CellLink(PlanOf(u), j)) == 0) <==>
            !AnyLive(FailedMask(u, 1)) &&
            SpineFailed(u.fs, u.pair, 0) == 0 && SpineFailed(u.fs, u.pair, u.n - 1) == 0
  {
    FacingIsSound(u);
    HealthyAgree(u);
    SomeHealthy(u);
    AlwaysHealthyIff(PlanOf(u), u.ratio);
  }

  // Illustrations

  lemma MixedClasses(u: Setup)
    requires u.fs == [FailedLink(0, 0, 2), FailedLink(1, 0, 100), FailedLink(0, 1, 2)]
    requires u.pair == Pair(0, 1) && u.n == 3
    ensures Classes(u.fs, u.pair, u.n) == [DirectFull, DirectPartial, DaNone]
    ensures FailedMask(u, 0) == [false, false, true] && FailedMask(u, 1) == [true, true, false]
  {
    var fs, p := u.fs, u.pair;
    assert fs[1] in fs && fs[2] in fs;
    assert HasDirectFull(fs, p, 0) && HasDirect(fs, p, 1) && !HasDirectFull(fs, p, 1) && !HasAny(fs, 2);
    SpineFailedMeans(fs, p, 1);
    SpineFailedMeans(fs, p, 2);
  }

  /** Spine 0 fails partially towards one leaf of the pair and fully towards the
      other. The weak turn of the first period goes to it. */
  lemma MixedSpineIsUsed()
    ensures var fs := [FailedLink(0, 0, 2), FailedLink(1, 0, 100), FailedLink(0, 1, 2)];
            var u := Setup(fs, Pair(0, 1), 3, 1, 1);
            && ClassOf(fs, Pair(0, 1), 0) == DirectFull
            && Facing(u) && 0 < NumPartial(u) && Sound(PlanOf(u))
            && CellLink(PlanOf(u), 1) == 0
  {
    var u := Setup([FailedLink(0, 0, 2), FailedLink(1, 0, 100), FailedLink(0, 1, 2)], Pair(0, 1), 3, 1, 1);
    var cs := Classes(u.fs, u.pair, u.n);
    MixedClasses(u);
    assert cs[0] == DirectFull;
    TallyOfThree(cs);
    hide Tally, ClassOf, SpineFailed;
    FacingIsSound(u);
    SecondFlowcell(PlanOf(u));
    assert PlanOf(u).weak[0];
  }

  lemma TallyOfThree(cs: seq<Class>)
    requires cs == [DirectFull, DirectPartial, DaNone]
    ensures Tally(cs, DirectFull) == Tally(cs, DirectPartial) == 1
  {
    TallyPositive(cs, DirectFull);
    TallyPositive(cs, DirectPartial);
    TallyPositive(cs, DaNone);
    TallyAll(cs);
  }

  lemma TallyOfTwo(cs: seq<Class>)
    requires cs == [DaPartial, DirectFull]
    ensures Tally(cs, DirectFull) == 1 && Tally(cs, DirectPartial) == 0
  {
    TallyPositive(cs, DirectFull);
    TallyPositive(cs, DaPartial);
    TallyAll(cs);
  }

  lemma FullClasses(u: Setup)
    requires u.fs == [FailedLink(0, 1, 100), FailedLink(5, 0, 2)] && u.pair == Pair(0, 1) && u.n == 2
    ensures Classes(u.fs, u.pair, u.n) == [DaPartial, DirectFull]
    ensures FailedMask(u, 0) == [true, false] && FailedMask(u, 1) == [false, false]
  {
    var fs, p := u.fs, u.pair;
    assert fs[0] in fs && fs[1] in fs && HasDirectFull(fs, p, 1) && !HasDirect(fs, p, 0) && HasAny(fs, 0);
    SpineFailedMeans(fs, p, 0);
    assert SpineFailed(fs, p, 1) == 2;
    assert fs[1..][0] == fs[1] && !FirstIsFull(fs, 0);
  }

  /** With a full failure at the end of the ring and no partial one, the second
      flowcell takes the fully failed spine. */
  lemma FullFailureIsUsed()
    ensures var fs := [FailedLink(0, 1, 100), FailedLink(5, 0, 2)];
            var u := Setup(fs, Pair(0, 1), 2, 1, 1);
            && ClassOf(fs, Pair(0, 1), 1) == DirectFull
            && Facing(u) && Sound(PlanOf(u)) && CellLink(PlanOf(u), 1) == 1
  {
    var u := Setup([FailedLink(0, 1, 100), FailedLink(5, 0, 2)], Pair(0, 1), 2, 1, 1);
    var cs := Classes(u.fs, u.pair, u.n);
    FullClasses(u);
    assert cs[1] == DirectFull;
    TallyOfTwo(cs);
    hide Tally, ClassOf, SpineFailed, After, FirstLive;
    FacingIsSound(u);
    assert !AnyLive(PlanOf(u).weak);
    FirstIsLive(PlanOf(u).healthy);
    SecondFlowcell(PlanOf(u));
  }
}
