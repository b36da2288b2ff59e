/** The WFCS branch of `TcpAgent::output`: the bounded search that finds the spine
    of the next flowcell, refined against FlowcellSchedule. */
module WfcsAgents {
  import opened Arith
  import opened Rotation
  import opened SpineClasses
  import opened FlowcellSchedule
  import opened WeightedFlowcells
  import opened Spraying

  /** How many flowcells the first `n` packets begin. */
  function CellsBegun(cell: nat, n: nat): nat
    requires 0 < cell
  {
    if n == 0 then 0 else (n - 1) / cell + 1
  }

  /** A flowcell begins exactly when the packet counter is a multiple of its size. */
  lemma CellBegins(cell: nat, n: nat)
    requires 0 < cell
    ensures CellsBegun(cell, n + 1) == n / cell + 1
    ensures CellsBegun(cell, n) == if n % cell == 0 then n / cell else n / cell + 1
    ensures n % cell == 0 ==> n == cell * (n / cell)
  {
    if n > 0 {
      var q, r := n / cell, n % cell;
      assert n == cell * q + r;
      if r == 0 {
        assert cell * (q - 1) == cell * q - cell;
        RemainderIs(n - 1, cell, q - 1, cell - 1);
      } else {
        RemainderIs(n - 1, cell, q, r - 1);
      }
    }
  }

  lemma StaysOnSchedule(plan: Plan, w: State, n: nat)
    requires Sound(plan) && w == After(plan, CellsBegun(plan.cell, n))
    ensures CellsBegun(plan.cell, n + 1) == n / plan.cell + 1
    ensures (if n % plan.cell == 0 then Step(plan, w, n) else w) == After(plan, n / plan.cell + 1)
  {
    CellBegins(plan.cell, n);
    AfterStep(plan, n / plan.cell);
  }

  class WfcsAgent {
    const u: Setup
    const numDirectFailures: int
    const numDirectPartial: int
    const rfactor: int
    var linkId: nat
    var flowCellMod: int
    var toggleWeakSpines: int
    var ndatapack: nat

    ghost predicate Valid()
      reads this
    {
      && Facing(u)
      && numDirectFailures == NumDirect(u) && numDirectPartial == NumPartial(u)
      && rfactor == PlanOf(u).rfactor
      && linkId < u.n && 0 < flowCellMod && 0 <= toggleWeakSpines
    }

    ghost function Now(): State
      requires Valid()
      reads this
    {
      State(linkId, flowCellMod, toggleWeakSpines)
    }

    /** The agent is where the schedule says after the flowcells begun so far. */
    ghost predicate OnSchedule()
      reads this
    {
      Valid() && Sound(PlanOf(u)) && Now() == After(PlanOf(u), CellsBegun(u.cell, ndatapack))
    }

    /** The first packet of a flow, once `agent` has classified its failures. */
    constructor (agent: SprayAgent, failedLinks: seq<FailedLink>, cell: nat, ratio: nat)
      requires agent.Valid() && agent.known == failedLinks
      requires Facing(Setup(failedLinks, agent.pair, agent.numUplinks, cell, ratio))
      ensures Valid() && u == Setup(failedLinks, agent.pair, agent.numUplinks, cell, ratio)
      ensures OnSchedule() && ndatapack == 0
    {
      var setup := Setup(failedLinks, agent.pair, agent.numUplinks, cell, ratio);
      FacingIsSound(setup);
      this.u := setup;
      numDirectFailures, numDirectPartial := agent.numDirectFailures, agent.numDirectPartial;
      linkId := agent.numUplinks - 1;
      var r := (agent.numUplinks - agent.numDirectFailures) * ratio;
      rfactor := r;
      flowCellMod := cell * r;
      toggleWeakSpines, ndatapack := 0, 0;
      ProductAtLeast(cell, r);
    }

    /** Sends one packet. For every failure list, packet k of the flow belongs to
        flowcell k / cell and takes the link the schedule has for it. */
    method SendPacket() returns (link: nat)
      requires OnSchedule()
      modifies this
      ensures OnSchedule() && ndatapack == old(ndatapack) + 1
      ensures link == CellLink(PlanOf(u), old(ndatapack) / u.cell)
    {
      hide After, PlanOf, Step, CellsBegun, NumDirect, NumPartial;
      StaysOnSchedule(PlanOf(u), Now(), ndatapack);
      ChooseLink();
      link := linkId;
      ndatapack := ndatapack + 1;
    }

    /** `isSpineFailed`. */
    method IsSpineFailed(spine: nat) returns (spineFailed: int)
      ensures spineFailed == SpineFailed(u.fs, u.pair, spine)
    {
      spineFailed := 0;
      var j := 0;
      while j < |u.fs|
        invariant 0 <= j <= |u.fs| && spineFailed == 0
        invariant SpineFailed(u.fs, u.pair, spine) == SpineFailed(u.fs[j..], u.pair, spine)
      {
        var f := u.fs[j];
        if (f.leaf == u.pair.srcLeaf || f.leaf == u.pair.destLeaf) && spine == f.spine {
          if f.failureRatio == 100 {
            spineFailed := 2;
          } else {
            spineFailed := 1;
          }
          return;
        }
        j := j + 1;
      }
    }

    /** The link for the packet about to be sent: a new choice at the start of a
        flowcell, the same link inside one. */
    method ChooseLink()
      requires Valid()
      modifies this`linkId, this`flowCellMod, this`toggleWeakSpines
      ensures Valid() && Sound(PlanOf(u))
      ensures Now() == if ndatapack % u.cell == 0 then Step(PlanOf(u), old(Now()), ndatapack) else old(Now())
    {
      FacingIsSound(u);
      if ndatapack % u.cell == 0 {
        NextLink();
        if numDirectFailures > 0 {
          Search();
        }
      }
    }

    method NextLink()
      requires Valid()
      modifies this`linkId
      ensures Valid() && linkId == Succ(u.n, old(linkId))
    {
      linkId := (linkId + 1) % u.n;
    }

    /** A weak spine takes its turn: the counters move on. */
    method TakeWeakTurn()
      requires Valid()
      modifies this`flowCellMod, this`toggleWeakSpines
      ensures Valid()
      ensures toggleWeakSpines == ToggleAfter(numDirectPartial, old(toggleWeakSpines))
      ensures flowCellMod == ModAfter(u.cell, rfactor, numDirectPartial, old(flowCellMod), old(toggleWeakSpines))
    {
      ProductNonNegative(u.cell, numDirectPartial);
      ProductNonNegative(u.cell, rfactor);
      toggleWeakSpines := toggleWeakSpines + 1;
      if toggleWeakSpines >= numDirectPartial {
        toggleWeakSpines := 0;
        var pktsSentWeakPaths := u.cell * numDirectPartial;
        var pktsSentHealthyPaths := u.cell * rfactor;
        flowCellMod := flowCellMod + pktsSentWeakPaths + pktsSentHealthyPaths;
      }
    }

    ghost function Wanted(): seq<bool>
      requires Valid()
      reads this
    {
      FailedMask(u, if WeakTurn(flowCellMod, toggleWeakSpines, ndatapack) then 1 else 0)
    }

    /** One round of the search: take the current spine if it is the turn of its
        kind, or go on to the next. */
    method Try() returns (cleared: bool)
      requires Valid()
      modifies this`linkId, this`flowCellMod, this`toggleWeakSpines
      ensures Valid() && cleared == old(Wanted()[linkId])
      ensures linkId == if cleared then old(linkId) else Succ(u.n, old(linkId))
      ensures var moved := cleared && WeakTurn(old(flowCellMod), old(toggleWeakSpines), ndatapack);
              && toggleWeakSpines == (if moved then ToggleAfter(numDirectPartial, old(toggleWeakSpines))
                                      else old(toggleWeakSpines))
              && flowCellMod == (if moved then ModAfter(u.cell, rfactor, numDirectPartial,
                                                        old(flowCellMod), old(toggleWeakSpines))
                                 else old(flowCellMod))
    {
      hide Facing, PlanOf, Succ, WeakTurn, ModAfter, ToggleAfter, SpineFailed;
      cleared := false;
      var spineFailed := IsSpineFailed(linkId);
      if spineFailed == 2 {
        NextLink();
      } else if spineFailed == 1 {
        if WeakTurn(flowCellMod, toggleWeakSpines, ndatapack) {
          TakeWeakTurn();
          cleared := true;
        } else {
          NextLink();
        }
      } else {
        if WeakTurn(flowCellMod, toggleWeakSpines, ndatapack) {
          NextLink();
        } else {
          cleared := true;
        }
      }
    }

    /** The search loop, from the link after the last one used. When no spine is of
        the kind whose turn it is, the loop runs out where it began. */
    method Search()
      requires Valid()
      modifies this`linkId, this`flowCellMod, this`toggleWeakSpines
      ensures Valid() && linkId == FirstLive(old(Wanted()), old(linkId))
      ensures var moved := WeakTurn(old(flowCellMod), old(toggleWeakSpines), ndatapack) &&
                           AnyLive(old(Wanted()));
              && toggleWeakSpines == (if moved then ToggleAfter(numDirectPartial, old(toggleWeakSpines))
                                      else old(toggleWeakSpines))
              && flowCellMod == (if moved then ModAfter(u.cell, rfactor, numDirectPartial,
                                                        old(flowCellMod), old(toggleWeakSpines))
                                 else old(flowCellMod))
    {
      ghost var n, start, mask := u.n, linkId, Wanted();
      assert Wrap(n, start, 0) == start;
      hide Facing, NumDirect, NumPartial, PlanOf, FailedMask, AnyLive;
      hide FirstLive, WeakTurn, ModAfter, ToggleAfter;
      var allChecksCleared, i := false, 0;
      ghost var steps := 0;
      while !allChecksCleared && i < u.n
        invariant Valid() && 0 <= i && steps <= n && linkId == Wrap(n, start, steps)
        invariant forall k | 0 <= k < steps :: !mask[Wrap(n, start, k)]
        invariant !allChecksCleared ==>
                    i == steps && flowCellMod == old(flowCellMod) && toggleWeakSpines == old(toggleWeakSpines)
        invariant allChecksCleared ==> steps < n && mask[linkId]
        invariant allChecksCleared ==>
                    var weak := WeakTurn(old(flowCellMod), old(toggleWeakSpines), ndatapack);
                    && toggleWeakSpines == (if weak then ToggleAfter(numDirectPartial, old(toggleWeakSpines))
                                            else old(toggleWeakSpines))
                    && flowCellMod == (if weak then ModAfter(u.cell, rfactor, numDirectPartial,
                                                             old(flowCellMod), old(toggleWeakSpines))
                                       else old(flowCellMod))
        decreases u.n - i
      {
        allChecksCleared := Try();
        i := i + 1;
        if !allChecksCleared {
          steps := steps + 1;
        }
      }
      SearchEnds(mask, start, steps);
    }
  }
}
