/** The flowcell schedule of WFCS on its own: rings of healthy and of weak links,
    and a counter that decides whose turn it is. */
module FlowcellSchedule {
  import opened Arith
  import opened Rotation

  /** `cell` packets to a flowcell, `rfactor` flowcells on healthy links, then
      `partials` flowcells on weak ones. */
  datatype Plan = Plan(healthy: seq<bool>, weak: seq<bool>, cell: nat, rfactor: nat, partials: nat)

  datatype State = State(linkId: nat, flowCellMod: nat, toggle: nat)

  predicate Sound(u: Plan) {
    0 < |u.healthy| == |u.weak| && 0 < u.cell && 0 < u.rfactor
  }

  /** Weak links take turns too. */
  ghost predicate Alternates(u: Plan) {
    Sound(u) && 0 < u.partials && AnyLive(u.weak)
  }

  /** Whether it is the turn of the weak links. */
  predicate WeakTurn(flowCellMod: nat, toggle: nat, ndatapack: nat)
    requires 0 < flowCellMod
  {
    (ndatapack % flowCellMod == 0 && ndatapack > 0) || toggle != 0
  }

  /** The counters after a turn of a weak link. */
  function ToggleAfter(partials: nat, toggle: nat): nat {
    if toggle + 1 >= partials then 0 else toggle + 1
  }

  function ModAfter(cell: nat, rfactor: nat, partials: nat, flowCellMod: nat, toggle: nat): (r: nat)
    ensures flowCellMod <= r
  {
    ProductNonNegative(cell, partials);
    ProductNonNegative(cell, rfactor);
    if toggle + 1 >= partials then flowCellMod + cell * partials + cell * rfactor else flowCellMod
  }

  /** The choice made for the flowcell that starts at packet `ndatapack`. In a turn
      of weak links with none to take it, the search comes back to where it began
      without having looked at that link. */
  ghost function Step(u: Plan, w: State, ndatapack: nat): (w': State)
    requires Sound(u) && w.linkId < |u.healthy| && 0 < w.flowCellMod
    ensures w'.linkId < |u.healthy| && 0 < w'.flowCellMod
  {
    var next := Succ(|u.healthy|, w.linkId);
    if WeakTurn(w.flowCellMod, w.toggle, ndatapack) && !AnyLive(u.weak) then
      w.(linkId := next)
    else if WeakTurn(w.flowCellMod, w.toggle, ndatapack) then
      State(FirstLive(u.weak, next), ModAfter(u.cell, u.rfactor, u.partials, w.flowCellMod, w.toggle),
            ToggleAfter(u.partials, w.toggle))
    else
      State(FirstLive(u.healthy, next), w.flowCellMod, w.toggle)
  }

  /** The state after `j` flowcells of a new flow. */
  ghost function After(u: Plan, j: nat): (w: State)
    requires Sound(u)
    ensures w.linkId < |u.healthy| && 0 < w.flowCellMod
  {
    if j == 0 then
      ProductAtLeast(u.cell, u.rfactor);
      State(|u.healthy| - 1, u.cell * u.rfactor, 0)
    else
      ProductNonNegative(u.cell, j - 1);
      Step(u, After(u, j - 1), u.cell * (j - 1))
  }

  /** The link of flowcell `j`, counting from zero. */
  ghost function CellLink(u: Plan, j: nat): (link: nat)
    requires Sound(u)
    ensures link < |u.healthy|
  {
    After(u, j + 1).linkId
  }

  /** How many of the `count` flowcells from number `from` on take link `x`. */
  ghost function CellsOn(u: Plan, from: nat, count: nat, x: nat): nat
    requires Sound(u)
  {
    if count == 0 then 0
    else CellsOn(u, from, count - 1, x) + if After(u, from + count).linkId == x then 1 else 0
  }

  /** Flowcells in one period. */
  function Period(u: Plan): nat {
    u.rfactor + u.partials
  }

  ghost predicate AtPeriodStart(u: Plan, start: nat)
    requires Sound(u)
  {
    After(u, start).toggle == 0 && After(u, start).flowCellMod == u.cell * (u.rfactor + start)
  }

  /** A flowcell that starts at packet cell * j is a multiple of cell * m packets
      into the flow at j == m and at no earlier flowcell but the first. */
  lemma CellRemainder(cell: nat, j: nat, m: nat)
    requires 0 < cell && 0 < m && j <= m
    ensures 0 < cell * m
    ensures (cell * j) % (cell * m) == 0 <==> j == 0 || j == m
    ensures 0 <= cell * j && (0 < j ==> 0 < cell * j)
  {
    ProductAtLeast(cell, m);
    if j == m {
      RemainderIs(cell * j, cell * m, 1, 0);
    } else {
      Distribute(cell, m, j);
      ProductAtLeast(cell, m - j);
      ProductNonNegative(cell, j);
      RemainderIs(cell * j, cell * m, 0, cell * j);
      if j > 0 {
        ProductAtLeast(cell, j);
      }
    }
  }

  lemma AfterStep(u: Plan, j: nat)
    requires Sound(u)
    ensures 0 <= u.cell * j && After(u, j + 1) == Step(u, After(u, j), u.cell * j)
  {
    ProductNonNegative(u.cell, j);
  }

  /** A period opens with `rfactor` turns over the healthy links. */
  lemma {:induction false} HealthyPhase(u: Plan, start: nat, i: nat)
    requires Sound(u) && AtPeriodStart(u, start) && i <= u.rfactor
    ensures var w := After(u, start + i);
            && w.toggle == 0 && w.flowCellMod == After(u, start).flowCellMod
            && w.linkId == Turn(u.healthy, After(u, start).linkId, i)
  {
    hide After, Turn, FirstLive;
    if i > 0 {
      HealthyPhase(u, start, i - 1);
      AfterStep(u, start + i - 1);
      CellRemainder(u.cell, start + i - 1, u.rfactor + start);
      TurnStep(u.healthy, After(u, start).linkId, i - 1);
    } else {
      TurnStep(u.healthy, After(u, start).linkId, 0);
    }
  }

  /** It closes with one turn over each weak link. */
  lemma {:induction false} WeakPhase(u: Plan, start: nat, i: nat)
    requires Alternates(u) && AtPeriodStart(u, start) && i < u.partials
    ensures var r := start + u.rfactor;
            var w := After(u, r + i);
            && w.linkId == Turn(u.weak, After(u, r).linkId, i)
            && w.toggle == i && w.flowCellMod == After(u, start).flowCellMod
            && 0 <= u.cell * (r + i) && WeakTurn(w.flowCellMod, w.toggle, u.cell * (r + i))
  {
    hide After, Turn, FirstLive;
    var r := start + u.rfactor;
    ProductNonNegative(u.cell, r + i);
    if i > 0 {
      WeakPhase(u, start, i - 1);
      AfterStep(u, r + i - 1);
      TurnStep(u.weak, After(u, r).linkId, i - 1);
    } else {
      HealthyPhase(u, start, u.rfactor);
      CellRemainder(u.cell, r, r);
      TurnStep(u.weak, After(u, r).linkId, 0);
    }
  }

  lemma PeriodEnds(u: Plan, start: nat)
    requires Alternates(u) && AtPeriodStart(u, start)
    ensures var r := start + u.rfactor;
            After(u, start + Period(u)).linkId == Turn(u.weak, After(u, r).linkId, u.partials)
    ensures AtPeriodStart(u, start + Period(u))
  {
    hide After, Turn, FirstLive;
    var r, p := start + u.rfactor, u.partials;
    WeakPhase(u, start, p - 1);
    AfterStep(u, r + p - 1);
    TurnStep(u.weak, After(u, r).linkId, p - 1);
    assert r + p - 1 + 1 == start + Period(u);
    SumOfProducts(u.cell, r, p, u.rfactor);
  }

  lemma SumOfProducts(c: nat, a: nat, b: nat, d: nat)
    ensures c * a + c * b + c * d == c * (d + (a + b))
  {}

  lemma {:induction false} CellsOnSplit(u: Plan, from: nat, a: nat, b: nat, x: nat)
    requires Sound(u)
    ensures CellsOn(u, from, a + b, x) == CellsOn(u, from, a, x) + CellsOn(u, from + a, b, x)
  {
    hide After;
    if b > 0 {
      CellsOnSplit(u, from, a, b - 1, x);
      assert from + (a + b) == from + a + b;
    }
  }

  lemma {:induction false} HealthyVisits(u: Plan, start: nat, i: nat, x: nat)
    requires Sound(u) && AtPeriodStart(u, start) && i <= u.rfactor
    ensures CellsOn(u, start, i, x) == Visits(u.healthy, After(u, start).linkId, i, x)
  {
    hide After, Turn;
    if i > 0 {
      HealthyVisits(u, start, i - 1, x);
      HealthyPhase(u, start, i);
    }
  }

  lemma {:induction false} WeakVisits(u: Plan, start: nat, i: nat, x: nat)
    requires Alternates(u) && AtPeriodStart(u, start) && i <= u.partials
    ensures var r := start + u.rfactor;
            CellsOn(u, r, i, x) == Visits(u.weak, After(u, r).linkId, i, x)
  {
    hide After, Turn;
    if i > 0 {
      WeakVisits(u, start, i - 1, x);
      if i < u.partials {
        WeakPhase(u, start, i);
      } else {
        PeriodEnds(u, start);
        assert start + u.rfactor + i == start + Period(u);
      }
    }
  }

  /** A period visits the healthy links `rfactor` times and then the weak ones
      `partials` times, each group in its own rotation. */
  lemma PeriodVisits(u: Plan, start: nat, x: nat)
    requires Alternates(u) && AtPeriodStart(u, start)
    ensures CellsOn(u, start, Period(u), x) ==
            Visits(u.healthy, After(u, start).linkId, u.rfactor, x) +
            Visits(u.weak, After(u, start + u.rfactor).linkId, u.partials, x)
    ensures AtPeriodStart(u, start + Period(u))
  {
    hide After, Visits;
    CellsOnSplit(u, start, u.rfactor, u.partials, x);
    HealthyVisits(u, start, u.rfactor, x);
    WeakVisits(u, start, u.partials, x);
    PeriodEnds(u, start);
  }

  lemma {:induction false} PeriodStarts(u: Plan, k: nat)
    requires Alternates(u)
    ensures AtPeriodStart(u, Times(Period(u), k))
  {
    if k > 0 {
      hide After;
      PeriodStarts(u, k - 1);
      PeriodEnds(u, Times(Period(u), k - 1));
    }
  }

  /** Every period shares out its flowcells exactly: each healthy link takes
      `ratio` of them, each weak link one, every other link none. */
  lemma Schedule(u: Plan, ratio: nat, k: nat, x: nat)
    requires Alternates(u) && x < |u.healthy|
    requires u.rfactor == Times(|Members(u.healthy)|, ratio) && u.partials == |Members(u.weak)|
    requires forall i | 0 <= i < |u.healthy| :: !(u.healthy[i] && u.weak[i])
    ensures CellsOn(u, Times(Period(u), k), Period(u), x) ==
            if u.healthy[x] then ratio else if u.weak[x] then 1 else 0
  {
    hide After, CellsOn, Visits, Members, Times;
    PeriodStarts(u, k);
    var start := Times(Period(u), k);
    PeriodVisits(u, start, x);
    var link, link' := After(u, start).linkId, After(u, start + u.rfactor).linkId;
    TimesZero(ratio);
    MembersIffLive(u.healthy);
    MembersIffLive(u.weak);
    if u.healthy[x] {
      RoundsAreFair(u.healthy, link, ratio, x);
      NeverDead(u.weak, link', u.partials, x);
    } else {
      NeverDead(u.healthy, link, u.rfactor, x);
      if u.weak[x] {
        RoundIsFair(u.weak, link', x);
      } else {
        NeverDead(u.weak, link', u.partials, x);
      }
    }
  }

  lemma CellMultiple(cell: nat, j: nat, m: nat)
    requires 0 < cell && 0 < m
    ensures 0 <= cell * j && 0 < cell * m
    ensures (cell * j) % (cell * m) == 0 <==> j % m == 0
    ensures 0 < cell * j <==> 0 < j
  {
    ScaledRemainder(cell, j, m);
    ProductNonNegative(cell, j);
    if 0 < j % m {
      ProductAtLeast(cell, j % m);
    }
    if 0 < j {
      ProductAtLeast(cell, j);
    }
  }

  /** Without weak links the counters stand still, and every `rfactor` flowcells
      one goes to the next link unchecked. */
  lemma {:induction false} UncheckedTurn(u: Plan, j: nat)
    requires Sound(u) && !AnyLive(u.weak)
    ensures After(u, j).toggle == 0 && After(u, j).flowCellMod == u.cell * u.rfactor
    ensures var next := Succ(|u.healthy|, After(u, j).linkId);
            CellLink(u, j) == if j > 0 && j % u.rfactor == 0 then next else FirstLive(u.healthy, next)
  {
    if j > 0 {
      UncheckedTurn(u, j - 1);
      AfterStep(u, j - 1);
    }
    CellMultiple(u.cell, j, u.rfactor);
    AfterStep(u, j);
  }

  /** With weak links every flowcell takes a healthy or a weak link. */
  lemma NeverElsewhere(u: Plan, j: nat)
    requires Sound(u) && AnyLive(u.weak) && AnyLive(u.healthy)
    ensures var x := CellLink(u, j); u.healthy[x] || u.weak[x]
  {
    AfterStep(u, j);
    var next := Succ(|u.healthy|, After(u, j).linkId);
    FirstLiveIsNearest(u.healthy, next);
    FirstLiveIsNearest(u.weak, next);
    hide After, FirstLive;
  }
}

/** Weighted flowcell spraying (WFCS) with several failures: the loop that decides
    which spine the next flowcell takes, and the schedule it produces. */
module WeightedFlowcells {
  import opened Arith
  import opened Rotation
  import opened SpineClasses
  import opened FlowcellSchedule

  /** A flow facing failures: `cell` packets to a flowcell, and `ratio` flowcells
      on a healthy spine for each one on a partially failed spine. */
  datatype Setup = Setup(fs: seq<FailedLink>, pair: Pair, n: nat, cell: nat, ratio: nat)

  /** `isSpineFailed`: 0 healthy, 1 partial, 2 full, by the first failure listed. */
  function SpineFailed(fs: seq<FailedLink>, p: Pair, s: nat): (r: int)
    ensures 0 <= r <= 2
  {
    if fs == [] then 0
    else if IsDirect(fs[0], p) && fs[0].spine == s then if IsFull(fs[0]) then 2 else 1
    else SpineFailed(fs[1..], p, s)
  }

  function FailedMask(u: Setup, level: int): (live: seq<bool>)
    ensures |live| == u.n && forall s | 0 <= s < u.n :: live[s] == (SpineFailed(u.fs, u.pair, s) == level)
  {
    seq(u.n, s requires 0 <= s < u.n => SpineFailed(u.fs, u.pair, s) == level)
  }

  ghost function NumPartial(u: Setup): nat {
    Tally(Classes(u.fs, u.pair, u.n), DirectPartial)
  }

  ghost function NumDirect(u: Setup): nat {
    NumPartial(u) + Tally(Classes(u.fs, u.pair, u.n), DirectFull)
  }

  // The class and the first failure listed

  /** The class of every spine is what `isSpineFailed` says of it. */
  ghost predicate Agree(u: Setup) {
    forall s: nat | s < u.n :: SpineFailed(u.fs, u.pair, s) ==
      match ClassOf(u.fs, u.pair, s)
      case DirectFull => 2
      case DirectPartial => 1
      case _ => 0
  }

  lemma {:induction false} SpineFailedMeans(fs: seq<FailedLink>, p: Pair, s: nat)
    ensures SpineFailed(fs, p, s) != 0 <==> HasDirect(fs, p, s)
    ensures SpineFailed(fs, p, s) == 2 ==> HasDirectFull(fs, p, s)
    ensures SpineFailed(fs, p, s) == 1 ==> exists f | f in fs :: f.spine == s && IsDirect(f, p) && !IsFull(f)
  {
    if fs != [] {
      var f, rest := fs[0], fs[1..];
      SpineFailedMeans(rest, p, s);
      assert forall g :: g in fs <==> g == f || g in rest;
    }
  }

  ghost predicate Mixed(u: Setup, s: nat) {
    && HasDirectFull(u.fs, u.pair, s)
    && exists f | f in u.fs :: f.spine == s && IsDirect(f, u.pair) && !IsFull(f)
  }

  /** The two agree exactly when no spine lists a partial direct failure before
      its first full one; so they agree when no spine has both kinds. */
  lemma AgreeIff(u: Setup)
    ensures Agree(u) <==> forall s: nat | s < u.n && HasDirectFull(u.fs, u.pair, s) :: SpineFailed(u.fs, u.pair, s) == 2
    ensures (forall s: nat | s < u.n :: !Mixed(u, s)) ==> Agree(u)
  {
    forall s: nat | s < u.n {
      SpineFailedMeans(u.fs, u.pair, s);
    }
    if forall s: nat | s < u.n && HasDirectFull(u.fs, u.pair, s) :: SpineFailed(u.fs, u.pair, s) == 2 {
      assert Agree(u);
    }
    if Agree(u) {
      forall s: nat | s < u.n && HasDirectFull(u.fs, u.pair, s)
        ensures SpineFailed(u.fs, u.pair, s) == 2
      {
        assert ClassOf(u.fs, u.pair, s) == DirectFull;
      }
    }
    if forall s: nat | s < u.n :: !Mixed(u, s) {
      forall s: nat | s < u.n && HasDirectFull(u.fs, u.pair, s)
        ensures SpineFailed(u.fs, u.pair, s) == 2
      {
        assert !Mixed(u, s);
      }
    }
  }

  /** The healthy spines are told apart correctly whatever the list. */
  lemma HealthyAgree(u: Setup)
    ensures FailedMask(u, 0) == IndirectMask(Classes(u.fs, u.pair, u.n))
    ensures |Members(FailedMask(u, 0))| == u.n - NumDirect(u)
  {
    var cs := Classes(u.fs, u.pair, u.n);
    forall s: nat | s < u.n {
      SpineFailedMeans(u.fs, u.pair, s);
    }
    assert FailedMask(u, 0) == IndirectMask(cs);
    IndirectMembers(cs);
  }

  lemma MasksAgree(u: Setup)
    requires Agree(u)
    ensures var cs := Classes(u.fs, u.pair, u.n);
            && FailedMask(u, 0) == IndirectMask(cs)
            && FailedMask(u, 1) == Mask(cs, DirectPartial)
            && |Members(FailedMask(u, 0))| == u.n - NumDirect(u)
            && |Members(FailedMask(u, 1))| == NumPartial(u)
  {
    var cs := Classes(u.fs, u.pair, u.n);
    assert FailedMask(u, 0) == IndirectMask(cs);
    assert FailedMask(u, 1) == Mask(cs, DirectPartial);
    IndirectMembers(cs);
    TallyIsMembers(cs, DirectPartial);
  }

  /** What tcp.cc derives from the classification: the weight of the healthy
      spines and the number of partially failed ones. */
  ghost function PlanOf(u: Setup): (plan: Plan)
    ensures plan.cell == u.cell
  {
    var healthy := u.n - NumDirect(u);
    Plan(FailedMask(u, 0), FailedMask(u, 1), u.cell,
         if healthy <= 0 then 0 else Times(healthy, u.ratio), NumPartial(u))
  }

  /** A flow for which the search runs: several failures, some of them on links of
      its pair, and some healthy spine. */
  ghost predicate Facing(u: Setup) {
    1 < |u.fs| && 0 < u.cell && 0 < u.ratio && 0 < NumDirect(u) < u.n
  }

  /** The situation the schedule is about: also some partially failed spine, and
      classes that agree. */
  ghost predicate Regular(u: Setup) {
    Facing(u) && Agree(u) && 0 < NumPartial(u)
  }

  lemma FacingIsSound(u: Setup)
    requires Facing(u)
    ensures Sound(PlanOf(u)) && PlanOf(u).rfactor == (u.n - NumDirect(u)) * u.ratio
  {
    ProductAtLeast(u.n - NumDirect(u), u.ratio);
    TimesIsProduct(u.n - NumDirect(u), u.ratio);
  }

  /** The flowcells a spine is due in each period. */
  ghost function Share(u: Setup, x: nat): nat {
    match ClassOf(u.fs, u.pair, x)
    case DirectFull => 0
    case DirectPartial => 1
    case _ => u.ratio
  }

  /** The WFCS schedule: whatever the failures, in every period of
      (healthy spines) * ratio + (partially failed spines) flowcells each healthy
      spine takes exactly `ratio` flowcells, each partially failed spine exactly
      one, and each fully failed spine none. */
  lemma WfcsSchedule(u: Setup, k: nat, x: nat)
    requires Regular(u) && x < u.n
    ensures Alternates(PlanOf(u)) && Period(PlanOf(u)) == (u.n - NumDirect(u)) * u.ratio + NumPartial(u)
    ensures CellsOn(PlanOf(u), Times(Period(PlanOf(u)), k), Period(PlanOf(u)), x) == Share(u, x)
  {
    FacingIsSound(u);
    MasksAgree(u);
    MembersIffLive(FailedMask(u, 1));
    Schedule(PlanOf(u), u.ratio, k, x);
  }

  /** While the first failure listed on some spine is partial, no flowcell takes a
      spine whose first failure listed is full. */
  lemma NeverOnListedFull(u: Setup, j: nat)
    requires Facing(u) && AnyLive(FailedMask(u, 1))
    ensures Sound(PlanOf(u)) && SpineFailed(u.fs, u.pair, CellLink(PlanOf(u), j)) != 2
  {
    FacingIsSound(u);
    HealthyAgree(u);
    MembersIffLive(FailedMask(u, 0));
    hide Members;
    NeverElsewhere(PlanOf(u), j);
  }
}
