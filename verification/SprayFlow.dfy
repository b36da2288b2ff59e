/** Exactly when a flow always has a spine to go to: conditions on the failures and
    the settings, known before any draw. And a whole flow. */
module SprayFlows {
  import opened Arith
  import opened Rotation
  import opened SpineClasses
  import opened Spraying

  /** Draw i of `Random::integer(k)` is below k. */
  ghost predicate Draws(uniform: (nat, nat) -> nat) {
    forall i, k | 0 < k :: uniform(i, k) < k
  }

  /** The SVT of a new flow. */
  ghost function Chosen(q: Params, cs: seq<Class>, incomingTraffic: bool, uniform: (nat, nat) -> nat): int
    requires Drawable(q, cs)
  {
    Choice(q, BandwidthOf(q, cs), incomingTraffic, uniform)
  }

  /** The draw is well defined. */
  ghost predicate Drawable(q: Params, cs: seq<Class>) {
    1 <= q.failureRatio && 0 < q.capacity && 0 < BandwidthOf(q, cs).total
  }

  predicate MayTakePartial(q: Params) {
    (q.flowsizeBytes < q.threshold || q.dynamicMapping) && !q.healthyPathOnly
  }

  predicate MayTakeIndirect(q: Params) {
    q.flowsizeBytes < q.thresholdGL2GL || q.dynamicMapping
  }

  /** Whether indirect failures are not told apart. */
  predicate IgnoresIndirect(q: Params, incomingTraffic: bool) {
    q.healthyPathOnly || q.daSprayOnly || !incomingTraffic
  }

  /** Spines without a direct failure. */
  function Spared(cs: seq<Class>): int {
    |cs| - Tally(cs, DirectPartial) - Tally(cs, DirectFull)
  }

  /** The setups in which every draw leads to some spine: a spine is free of failure;
      or some spine has no direct failure, and indirect ones are ignored or may be
      taken; or every spine has a direct failure, and all draws fall on the partial
      ones. */
  ghost predicate AlwaysSomewhere(q: Params, cs: seq<Class>, incomingTraffic: bool)
    requires 1 <= q.failureRatio
  {
    || 0 < Tally(cs, DaNone)
    || (0 < Spared(cs) && (IgnoresIndirect(q, incomingTraffic) || MayTakeIndirect(q)))
    || (Spared(cs) == 0 && MayTakePartial(q) && BandwidthOf(q, cs).total <= BandwidthOf(q, cs).partial)
  }

  /** The setups in which it also does so after any remapping. */
  ghost predicate StaysSomewhere(q: Params, cs: seq<Class>, incomingTraffic: bool)
    requires 1 <= q.failureRatio
  {
    if !q.dynamicMapping then AlwaysSomewhere(q, cs, incomingTraffic)
    else
      || 0 < Tally(cs, DaNone)
      || (0 < Spared(cs) &&
          (q.healthyPathOnly || q.daSprayOnly || (!incomingTraffic && BandwidthOf(q, cs).partial == 0)))
  }

  lemma SparedIsHealthy(q: Params, cs: seq<Class>)
    requires Drawable(q, cs)
    ensures var b := BandwidthOf(q, cs);
            && 0 <= Spared(cs) && 0 <= b.partial && (0 < Spared(cs) <==> 0 < b.healthy)
            && (0 < Spared(cs) ==> b.partial < b.total)
  {
    TallyAll(cs);
    BandwidthBounds(q, cs);
    hide Tally;
    var b, spared := BandwidthOf(q, cs), Spared(cs);
    assert b.healthy == spared * q.capacity;
    HealthyBandwidth(spared, q.capacity);
    hide BandwidthOf, Spared;
    if 0 < spared {
      TotalIs(q, cs);
      SomeDrawIsLarger(b.partial, b.healthy, |cs| - 1, b.total, q.toFailedLeaf);
    }
  }

  lemma HealthyBandwidth(spared: nat, capacity: nat)
    requires 0 < capacity
    ensures 0 < spared <==> 0 < spared * capacity
  {
    ProductAtLeast(spared, capacity);
  }

  lemma TotalIs(q: Params, cs: seq<Class>)
    requires 1 <= q.failureRatio
    ensures var b := BandwidthOf(q, cs);
            b.total == if q.toFailedLeaf then (b.partial + b.healthy) * (|cs| - 1) else b.partial + b.healthy
  {
    hide Tally;
  }

  lemma SomeDrawIsLarger(partial: nat, healthy: nat, others: int, total: int, times: bool)
    requires 0 < healthy && 0 < total && total == if times then (partial + healthy) * others else partial + healthy
    ensures partial < total
  {
    if times {
      if others <= 0 {
        ProductNonPositive(partial + healthy, others);
      }
      ProductAtLeast(partial + healthy, others);
    }
  }

  /** Without a spine free of failure, all healthy bandwidth is indirect. */
  lemma AllHealthyIsIndirect(q: Params, cs: seq<Class>)
    requires 1 <= q.failureRatio && Tally(cs, DaNone) == 0
    ensures BandwidthOf(q, cs).healthy == BandwidthOf(q, cs).indirect
    ensures BandwidthOf(q, cs).indirectSpines == Spared(cs)
  {
    TallyAll(cs);
    hide Tally;
  }

  /** The SVT for each draw, when no spine is free of failure. */
  lemma ChosenIs(q: Params, cs: seq<Class>, incomingTraffic: bool, uniform: (nat, nat) -> nat)
    requires Drawable(q, cs) && Draws(uniform) && Tally(cs, DaNone) == 0
    ensures var b, svt := BandwidthOf(q, cs), Chosen(q, cs, incomingTraffic, uniform);
            if MayTakePartial(q) && uniform(0, b.total) < b.partial then svt == 1
            else if IgnoresIndirect(q, incomingTraffic) || Spared(cs) == 0 then svt == 0
            else if MayTakeIndirect(q) then svt in {11, 12} && AnyLive(Live(svt, cs))
            else svt == 10
  {
    AllHealthyIsIndirect(q, cs);
    SparedIsHealthy(q, cs);
    ChoiceIsEmptyOnlyWhen(q, cs, incomingTraffic, uniform);
    hide Tally, BandwidthOf, Live, AnyLive;
  }

  /** Draws that all give `r`, or the largest number allowed. */
  function Constantly(r: nat): (nat, nat) -> nat {
    (i: nat, k: nat) => if r < k then r else if k == 0 then 0 else k - 1
  }

  lemma LandsWhen(q: Params, cs: seq<Class>, incomingTraffic: bool, uniform: (nat, nat) -> nat)
    requires Drawable(q, cs) && Draws(uniform) && AlwaysSomewhere(q, cs, incomingTraffic)
    ensures AnyLive(Live(Chosen(q, cs, incomingTraffic, uniform), cs))
  {
    TallyPositive(cs, DaNone);
    SparedIsHealthy(q, cs);
    BandwidthBounds(q, cs);
    LiveByClass(cs);
    hide Tally, BandwidthOf, Live, AnyLive;
    if 0 < Tally(cs, DaNone) {
      ChoiceSpins(q, cs, incomingTraffic, uniform);
    } else {
      ChosenIs(q, cs, incomingTraffic, uniform);
    }
  }

  lemma StrandedBy(q: Params, cs: seq<Class>, incomingTraffic: bool) returns (uniform: (nat, nat) -> nat)
    requires Drawable(q, cs) && !AlwaysSomewhere(q, cs, incomingTraffic)
    ensures Draws(uniform) && !AnyLive(Live(Chosen(q, cs, incomingTraffic, uniform), cs))
  {
    SparedIsHealthy(q, cs);
    LiveByClass(cs);
    uniform := Constantly(BandwidthOf(q, cs).partial);
    ChosenIs(q, cs, incomingTraffic, uniform);
    hide Tally, BandwidthOf, Live, AnyLive;
  }

  /** Exactly when every draw gives a set of spines that rotation halts on. */
  lemma AlwaysSomewhereIff(q: Params, cs: seq<Class>, incomingTraffic: bool)
    requires Drawable(q, cs)
    ensures AlwaysSomewhere(q, cs, incomingTraffic) <==>
            forall uniform | Draws(uniform) :: AnyLive(Live(Chosen(q, cs, incomingTraffic, uniform), cs))
  {
    hide AlwaysSomewhere, AnyLive, Live, Chosen;
    if AlwaysSomewhere(q, cs, incomingTraffic) {
      forall uniform | Draws(uniform)
        ensures AnyLive(Live(Chosen(q, cs, incomingTraffic, uniform), cs))
      {
        LandsWhen(q, cs, incomingTraffic, uniform);
      }
    } else {
      var uniform := StrandedBy(q, cs, incomingTraffic);
    }
  }

  // Remapping

  /** The SVT after the byte counts seen at the flowcells so far. */
  function RemapAll(q: Params, svt: int, bytes: seq<int>): int {
    if bytes == [] then svt else Remap(q, RemapAll(q, svt, bytes[..|bytes| - 1]), bytes[|bytes| - 1])
  }

  /** When a flow is remapped: off the partially failed spines above the one threshold,
      off those with an indirect failure above the other, and never otherwise. */
  lemma RemapLaw(q: Params, svt: int, n: int)
    requires svt in {0, 1, 10, 11, 12}
    ensures Remap(q, svt, n) != svt <==>
            q.dynamicMapping && ((svt == 1 && q.threshold < n) || (svt in {11, 12} && q.thresholdGL2GL < n))
    ensures Remap(q, svt, n) in {svt, 0, 10} && (Remap(q, svt, n) == 0 && svt != 0 <==>
              q.dynamicMapping && q.daSprayOnly && svt == 1 && q.threshold < n)
  {}

  /** Any number of remappings amounts to at most one. */
  lemma {:induction false} RemapAllIsOne(q: Params, svt: int, bytes: seq<int>)
    ensures RemapAll(q, svt, bytes) == svt || exists n :: RemapAll(q, svt, bytes) == Remap(q, svt, n) != svt
  {
    if bytes != [] {
      var init, n := bytes[..|bytes| - 1], bytes[|bytes| - 1];
      RemapAllIsOne(q, svt, init);
      assert RemapAll(q, svt, init) == svt ==> RemapAll(q, svt, bytes) == Remap(q, svt, n);
    }
  }

  /** Every draw and every remapping leads to some spine. */
  ghost predicate NeverStranded(q: Params, cs: seq<Class>, incomingTraffic: bool)
    requires Drawable(q, cs)
  {
    forall uniform, bytes | Draws(uniform) ::
      AnyLive(Live(RemapAll(q, Chosen(q, cs, incomingTraffic, uniform), bytes), cs))
  }

  lemma RemapOnce(q: Params, svt: int, n: int)
    ensures RemapAll(q, svt, [n]) == Remap(q, svt, n) && RemapAll(q, svt, []) == svt
  {
    assert [n][..0] == [];
  }

  lemma KeepsLanding(q: Params, cs: seq<Class>, incomingTraffic: bool, uniform: (nat, nat) -> nat, n: int)
    requires Drawable(q, cs) && Draws(uniform) && StaysSomewhere(q, cs, incomingTraffic)
    ensures AlwaysSomewhere(q, cs, incomingTraffic)
    ensures AnyLive(Live(Remap(q, Chosen(q, cs, incomingTraffic, uniform), n), cs))
  {
    LandsWhen(q, cs, incomingTraffic, uniform);
    LiveByClass(cs);
    hide Tally, BandwidthOf, Live, AnyLive;
    if Tally(cs, DaNone) == 0 {
      ChosenIs(q, cs, incomingTraffic, uniform);
    }
  }

  lemma StrandedLater(q: Params, cs: seq<Class>, incomingTraffic: bool)
    returns (uniform: (nat, nat) -> nat, n: int)
    requires Drawable(q, cs) && q.dynamicMapping && !StaysSomewhere(q, cs, incomingTraffic)
    ensures Draws(uniform) && !AnyLive(Live(Remap(q, Chosen(q, cs, incomingTraffic, uniform), n), cs))
  {
    n := if q.threshold < q.thresholdGL2GL then q.thresholdGL2GL + 1 else q.threshold + 1;
    SparedIsHealthy(q, cs);
    LiveByClass(cs);
    var b := BandwidthOf(q, cs);
    uniform := Constantly(if IgnoresIndirect(q, incomingTraffic) then 0 else b.partial);
    ChosenIs(q, cs, incomingTraffic, uniform);
    hide Tally, BandwidthOf, Live, AnyLive;
  }

  /** Exactly when rotation halts at every flowcell of every flow. */
  lemma NeverStrandedIff(q: Params, cs: seq<Class>, incomingTraffic: bool)
    requires Drawable(q, cs)
    ensures NeverStranded(q, cs, incomingTraffic) <==> StaysSomewhere(q, cs, incomingTraffic)
  {
    hide AnyLive, Live, Chosen, AlwaysSomewhere, Remap;
    if StaysSomewhere(q, cs, incomingTraffic) {
      forall uniform, bytes | Draws(uniform)
        ensures AnyLive(Live(RemapAll(q, Chosen(q, cs, incomingTraffic, uniform), bytes), cs))
      {
        var svt := Chosen(q, cs, incomingTraffic, uniform);
        KeepsLanding(q, cs, incomingTraffic, uniform, 0);
        LandsWhen(q, cs, incomingTraffic, uniform);
        RemapAllIsOne(q, svt, bytes);
        if RemapAll(q, svt, bytes) != svt {
          var n :| RemapAll(q, svt, bytes) == Remap(q, svt, n);
          KeepsLanding(q, cs, incomingTraffic, uniform, n);
        }
      }
    } else if q.dynamicMapping {
      var uniform, n := StrandedLater(q, cs, incomingTraffic);
      RemapOnce(q, Chosen(q, cs, incomingTraffic, uniform), n);
    } else {
      var uniform := StrandedBy(q, cs, incomingTraffic);
      RemapOnce(q, Chosen(q, cs, incomingTraffic, uniform), 0);
    }
  }

  /** A spine free of failure is enough. */
  lemma FreeSpineSuffices(q: Params, cs: seq<Class>, incomingTraffic: bool)
    requires 1 <= q.failureRatio && 0 < q.capacity && 2 <= |cs| && DaNone in cs
    ensures Drawable(q, cs) && NeverStranded(q, cs, incomingTraffic)
  {
    TotalIsPositive(q, cs);
    TallyPositive(cs, DaNone);
    NeverStrandedIff(q, cs, incomingTraffic);
  }

  // A whole flow

  /** What a flow is to its agent: classification on the first packet, the draw, and
      one choice of spine for each flowcell, `bytes` being what had been sent by then.
      Every flowcell goes to a spine of the SVT in force, in rotation. */
  method SprayWholeFlow(agent: SprayAgent, failures: seq<FailedLink>, q: Params, incomingTraffic: bool,
                        uniform: (nat, nat) -> nat, bytes: seq<int>)
    returns (picks: seq<nat>)
    requires agent.Valid() && agent.known == [] && Draws(uniform)
    requires forall f | f in failures :: f.spine < agent.numUplinks
    requires Drawable(q, Classes(failures, agent.pair, agent.numUplinks))
    requires StaysSomewhere(q, Classes(failures, agent.pair, agent.numUplinks), incomingTraffic)
    modifies agent, agent.Arrays()
    ensures agent.Valid() && agent.known == failures && |picks| == |bytes|
    ensures var cs := Classes(failures, agent.pair, agent.numUplinks);
            FollowsSvts(q, cs, Chosen(q, cs, incomingTraffic, uniform), old(agent.linkId), bytes, picks)
  {
    hide StaysSomewhere, Live, AnyLive, FollowsSvts;
    agent.Classify(failures);
    ChooseFor(agent, q, incomingTraffic, uniform);
    NeverStrandedIff(q, Classes(failures, agent.pair, agent.numUplinks), incomingTraffic);
    picks := SprayFlowcells(agent, q, bytes);
  }

  /** The flowcells of a flow whose SVT has been chosen. */
  method SprayFlowcells(agent: SprayAgent, q: Params, bytes: seq<int>) returns (picks: seq<nat>)
    requires agent.Valid()
    requires forall sent :: AnyLive(Live(RemapAll(q, agent.svtMapping, sent),
                                         Classes(agent.known, agent.pair, agent.numUplinks)))
    modifies agent`svtMapping, agent`linkId
    ensures agent.Valid() && |picks| == |bytes|
    ensures FollowsSvts(q, Classes(agent.known, agent.pair, agent.numUplinks), old(agent.svtMapping),
                        old(agent.linkId), bytes, picks)
  {
    hide Live, AnyLive, FollowsSvts, Tables, Tally, ClassOf, Turn, Spinning;
    ghost var cs := Classes(agent.known, agent.pair, agent.numUplinks);
    ghost var svt, start := agent.svtMapping, agent.linkId;
    NothingFollows(q, cs, svt, start);
    RemapOnce(q, svt, 0);
    picks := [];
    while |picks| < |bytes|
      invariant |picks| <= |bytes| && agent.Valid()
      invariant agent.svtMapping == RemapAll(q, svt, bytes[..|picks|])
      invariant agent.linkId == if picks == [] then start else picks[|picks| - 1]
      invariant FollowsSvts(q, cs, svt, start, bytes[..|picks|], picks)
    {
      var now := bytes[|picks|];
      ghost var done := bytes[..|picks|];
      assert bytes[..|picks| + 1] == done + [now];
      RemapNext(q, svt, done, now);
      agent.NextFlowcell(q, now);
      FollowsNext(q, cs, svt, start, done, picks, now, agent.linkId);
      picks := picks + [agent.linkId];
    }
    assert bytes[..|picks|] == bytes;
  }

  /** The draw for a flow whose failures are classified. */
  method ChooseFor(agent: SprayAgent, q: Params, incomingTraffic: bool, uniform: (nat, nat) -> nat)
    requires agent.Valid() && Draws(uniform)
    requires Drawable(q, Classes(agent.known, agent.pair, agent.numUplinks))
    modifies agent`svtMapping
    ensures agent.Valid()
    ensures agent.svtMapping ==
            Chosen(q, Classes(agent.known, agent.pair, agent.numUplinks), incomingTraffic, uniform)
  {
    agent.ChooseSvt(q, incomingTraffic, uniform);
  }

  /** Flowcell i takes the next spine, after the one before it, of the SVT that the
      byte counts so far lead to. */
  ghost predicate FollowsAt(q: Params, cs: seq<Class>, svt: int, start: nat, bytes: seq<int>, picks: seq<nat>, i: nat)
    requires i < |picks| == |bytes|
  {
    var live, from := Live(RemapAll(q, svt, bytes[..i + 1]), cs), if i == 0 then start else picks[i - 1];
    picks[i] < |cs| && live[picks[i]] && from < |cs| && picks[i] == Turn(live, from, 1)
  }

  ghost predicate FollowsSvts(q: Params, cs: seq<Class>, svt: int, start: nat, bytes: seq<int>, picks: seq<nat>) {
    |picks| == |bytes| && forall i: nat | i < |picks| :: FollowsAt(q, cs, svt, start, bytes, picks, i)
  }

  lemma NothingFollows(q: Params, cs: seq<Class>, svt: int, start: nat)
    ensures FollowsSvts(q, cs, svt, start, [], [])
  {}

  lemma RemapNext(q: Params, svt: int, bytes: seq<int>, now: int)
    ensures RemapAll(q, svt, bytes + [now]) == Remap(q, RemapAll(q, svt, bytes), now)
  {
    assert (bytes + [now])[..|bytes + [now]| - 1] == bytes;
  }

  lemma FollowsNext(q: Params, cs: seq<Class>, svt: int, start: nat, bytes: seq<int>, picks: seq<nat>,
                    now: int, link: nat)
    requires start < |cs| && FollowsSvts(q, cs, svt, start, bytes, picks)
    requires var from := if picks == [] then start else picks[|picks| - 1];
             var live := Live(RemapAll(q, svt, bytes + [now]), cs);
             link < |cs| && live[link] && from < |cs| && link == Turn(live, from, 1)
    ensures FollowsSvts(q, cs, svt, start, bytes + [now], picks + [link])
  {
    hide Live, Turn, RemapAll;
    var bytes', picks' := bytes + [now], picks + [link];
    assert bytes'[..|bytes'|] == bytes';
    forall i: nat | i < |picks'|
      ensures FollowsAt(q, cs, svt, start, bytes', picks', i)
    {
      if i < |picks| {
        assert FollowsAt(q, cs, svt, start, bytes, picks, i);
        assert bytes'[..i + 1] == bytes[..i + 1];
      }
    }
  }
}
