/** The failure-aware spraying engine of `TcpAgent::output`: classifying spines
    when a flow starts, choosing the set of spines (SVT) the flow may use, and
    rotating over it flowcell by flowcell. */
module Spraying {
  import opened Arith
  import opened Rotation
  import opened SpineClasses

  /** The six tables against the class of every spine. */
  ghost predicate Tables(noFailure: seq<int>, daNoFailure: seq<int>, partial: seq<int>, full: seq<int>,
                         daPartial: seq<int>, daFull: seq<int>, cs: seq<Class>) {
    && |noFailure| == |daNoFailure| == |partial| == |full| == |daPartial| == |daFull| == |cs|
    && forall s | 0 <= s < |cs| ::
         && noFailure[s] == (if Indirect(cs[s]) then 1 else -1)
         && daNoFailure[s] == (if cs[s].DaNone? then 1 else -1)
         && partial[s] == (if cs[s].DirectPartial? then 1 else -1)
         && full[s] == (if cs[s].DirectFull? then 1 else -1)
         && daPartial[s] == (if cs[s].DaPartial? then 1 else -1)
         && daFull[s] == (if cs[s].DaFull? then 1 else -1)
  }

  class SprayAgent {
    const numUplinks: nat
    const pair: Pair
    const svtNoFailure: array<int>
    const svtPartialFailure: array<int>
    const fullFailureSpines: array<int>
    const svtDaPartialFailure: array<int>
    const svtDaFullFailure: array<int>
    const svtDaNoFailure: array<int>

    var numDirectFailures: int
    var numDirectPartial: int
    var numDirectFull: int
    var numIndirectPartial: int
    var numIndirectFull: int

    var linkId: nat
    var svtMapping: int

    /** The failures classified so far. */
    ghost var known: seq<FailedLink>

    ghost predicate Separate() {
      && svtNoFailure != svtPartialFailure && svtNoFailure != fullFailureSpines
      && svtNoFailure != svtDaPartialFailure && svtNoFailure != svtDaFullFailure
      && svtNoFailure != svtDaNoFailure && svtPartialFailure != fullFailureSpines
      && svtPartialFailure != svtDaPartialFailure && svtPartialFailure != svtDaFullFailure
      && svtPartialFailure != svtDaNoFailure && fullFailureSpines != svtDaPartialFailure
      && fullFailureSpines != svtDaFullFailure && fullFailureSpines != svtDaNoFailure
      && svtDaPartialFailure != svtDaFullFailure && svtDaPartialFailure != svtDaNoFailure
      && svtDaFullFailure != svtDaNoFailure
    }

    ghost function Arrays(): set<object> {
      {svtNoFailure, svtPartialFailure, fullFailureSpines, svtDaPartialFailure, svtDaFullFailure, svtDaNoFailure}
    }

    /** Every spine is in exactly the tables of its class, and every counter is
        the size of its class. */
    ghost predicate Counts(cs: seq<Class>)
      reads this
    {
      && numDirectPartial == Tally(cs, DirectPartial)
      && numDirectFull == Tally(cs, DirectFull)
      && numDirectFailures == Tally(cs, DirectPartial) + Tally(cs, DirectFull)
      && numIndirectPartial == Tally(cs, DaPartial)
      && numIndirectFull == Tally(cs, DaFull)
    }

    ghost predicate Tracks(cs: seq<Class>)
      reads this, Arrays()
    {
      && Separate() && Counts(cs)
      && Tables(svtNoFailure[..], svtDaNoFailure[..], svtPartialFailure[..], fullFailureSpines[..],
                svtDaPartialFailure[..], svtDaFullFailure[..], cs)
    }

    ghost predicate Valid()
      reads this, Arrays()
    {
      Tracks(Classes(known, pair, numUplinks)) && linkId < numUplinks
    }

    constructor (numUplinks: nat, pair: Pair)
      requires 0 < numUplinks
      ensures Valid() && fresh(Arrays()) && known == [] && linkId == numUplinks - 1
      ensures this.numUplinks == numUplinks && this.pair == pair
    {
      this.numUplinks, this.pair := numUplinks, pair;
      svtNoFailure := new int[numUplinks](_ => 1);
      svtDaNoFailure := new int[numUplinks](_ => 1);
      svtPartialFailure := new int[numUplinks](_ => -1);
      fullFailureSpines := new int[numUplinks](_ => -1);
      svtDaPartialFailure := new int[numUplinks](_ => -1);
      svtDaFullFailure := new int[numUplinks](_ => -1);
      numDirectFailures, numDirectPartial, numDirectFull := 0, 0, 0;
      numIndirectPartial, numIndirectFull := 0, 0;
      linkId, svtMapping, known := numUplinks - 1, 0, [];
      new;
      AllHealthy(pair, numUplinks);
    }

    /** One pass of the classification loop. */
    method ClassifyOne(f: FailedLink)
      requires Valid() && f.spine < numUplinks
      modifies this`numDirectFailures, this`numDirectPartial, this`numDirectFull
      modifies this`numIndirectPartial, this`numIndirectFull, this`known, Arrays()
      ensures Valid() && known == old(known) + [f]
    {
      hide Tally, ClassOf;
      ghost var cs := Classes(known, pair, numUplinks);
      ClassesAppend(known, f, pair, numUplinks);
      TallyUpdateAll(cs, f.spine, Refine(cs[f.spine], f, pair));
      if f.leaf == pair.srcLeaf || f.leaf == pair.destLeaf {
        DirectFailure(f, cs);
      } else {
        IndirectFailure(f, cs);
      }
      known := known + [f];
    }

    /** The branch for a failure on a link of this pair. */
    method DirectFailure(f: FailedLink, ghost cs: seq<Class>)
      requires Tracks(cs) && f.spine < |cs| && IsDirect(f, pair)
      modifies this`numDirectFailures, this`numDirectPartial, this`numDirectFull
      modifies this`numIndirectPartial, this`numIndirectFull, Arrays()
      ensures Tracks(cs[f.spine := Refine(cs[f.spine], f, pair)])
    {
      var s := f.spine;
      if svtNoFailure[s] == 1 {
        FirstDirectFailure(f, cs);
      } else {
        SharedSpine(f, cs);
      }
    }

    /** A spine with no direct failure so far gets its first. */
    method FirstDirectFailure(f: FailedLink, ghost cs: seq<Class>)
      requires Tracks(cs) && f.spine < |cs| && IsDirect(f, pair) && Indirect(cs[f.spine])
      modifies this`numDirectFailures, this`numDirectPartial, this`numDirectFull
      modifies this`numIndirectPartial, this`numIndirectFull, Arrays()
      ensures Tracks(cs[f.spine := Refine(cs[f.spine], f, pair)])
    {
      hide Tally;
      var s := f.spine;
      TallyUpdateAll(cs, s, Refine(cs[s], f, pair));
      svtNoFailure[s] := -1;
      svtDaNoFailure[s] := -1;
      numDirectFailures := numDirectFailures + 1;
      EnterDirect(f);
      LeaveIndirect(s);
    }

    /** Adds the spine of a direct failure to the table of its kind. */
    method EnterDirect(f: FailedLink)
      requires svtPartialFailure != fullFailureSpines
      requires f.spine < svtPartialFailure.Length == fullFailureSpines.Length
      modifies this`numDirectPartial, this`numDirectFull, svtPartialFailure, fullFailureSpines
      ensures fullFailureSpines[..] == if IsFull(f) then old(fullFailureSpines[..])[f.spine := 1]
                                       else old(fullFailureSpines[..])
      ensures svtPartialFailure[..] == if IsFull(f) then old(svtPartialFailure[..])
                                       else old(svtPartialFailure[..])[f.spine := 1]
      ensures numDirectFull == old(numDirectFull) + if IsFull(f) then 1 else 0
      ensures numDirectPartial == old(numDirectPartial) + if IsFull(f) then 0 else 1
    {
      if f.failureRatio == 100 {
        fullFailureSpines[f.spine] := 1;
        numDirectFull := numDirectFull + 1;
      } else {
        svtPartialFailure[f.spine] := 1;
        numDirectPartial := numDirectPartial + 1;
      }
    }

    /** Removes a spine from the tables of indirect failures. */
    method LeaveIndirect(s: nat)
      requires svtDaPartialFailure != svtDaFullFailure
      requires s < svtDaPartialFailure.Length == svtDaFullFailure.Length
      requires svtDaPartialFailure[s] == -1 || (svtDaPartialFailure[s] == 1 && svtDaFullFailure[s] == -1)
      requires svtDaFullFailure[s] == -1 || svtDaFullFailure[s] == 1
      modifies this`numIndirectPartial, this`numIndirectFull, svtDaPartialFailure, svtDaFullFailure
      ensures svtDaPartialFailure[..] == old(svtDaPartialFailure[..])[s := -1]
      ensures svtDaFullFailure[..] == old(svtDaFullFailure[..])[s := -1]
      ensures numIndirectPartial == old(numIndirectPartial) - if old(svtDaPartialFailure[s]) == 1 then 1 else 0
      ensures numIndirectFull == old(numIndirectFull) - if old(svtDaFullFailure[s]) == 1 then 1 else 0
    {
      if svtDaPartialFailure[s] == 1 {
        svtDaPartialFailure[s] := -1;
        numIndirectPartial := numIndirectPartial - 1;
      } else if svtDaFullFailure[s] == 1 {
        svtDaFullFailure[s] := -1;
        numIndirectFull := numIndirectFull - 1;
      }
    }

    /** Two failures share the same spine: only a full one changes anything. */
    method SharedSpine(f: FailedLink, ghost cs: seq<Class>)
      requires Tracks(cs) && f.spine < |cs| && IsDirect(f, pair) && !Indirect(cs[f.spine])
      modifies this`numDirectPartial, this`numDirectFull, Arrays()
      ensures Tracks(cs[f.spine := Refine(cs[f.spine], f, pair)])
    {
      hide Tally;
      var s := f.spine;
      TallyUpdateAll(cs, s, Refine(cs[s], f, pair));
      if f.failureRatio == 100 {
        if fullFailureSpines[s] != 1 {
          fullFailureSpines[s] := 1;
          numDirectFull := numDirectFull + 1;
          if svtPartialFailure[s] == 1 {
            svtPartialFailure[s] := -1;
            numDirectPartial := numDirectPartial - 1;
          }
        }
      }
    }

    /** The branch for a failure elsewhere, which only matters to a spine with no
        failure so far. */
    method IndirectFailure(f: FailedLink, ghost cs: seq<Class>)
      requires Tracks(cs) && f.spine < |cs| && !IsDirect(f, pair)
      modifies this`numIndirectPartial, this`numIndirectFull, Arrays()
      ensures Tracks(cs[f.spine := Refine(cs[f.spine], f, pair)])
    {
      hide Tally;
      var s := f.spine;
      ghost var d := Refine(cs[s], f, pair);
      TallyUpdateAll(cs, s, d);
      if svtNoFailure[s] == -1 {
      } else {
        if svtDaNoFailure[s] == -1 {
        } else {
          if f.failureRatio == 100 {
            svtDaFullFailure[s] := 1;
            numIndirectFull := numIndirectFull + 1;
          } else {
            svtDaPartialFailure[s] := 1;
            numIndirectPartial := numIndirectPartial + 1;
          }
          svtDaNoFailure[s] := -1;
        }
      }
    }

    /** The classification loop run on the first packet of a flow. */
    method Classify(failures: seq<FailedLink>)
      requires Valid() && known == []
      requires forall f | f in failures :: f.spine < numUplinks
      modifies this`numDirectFailures, this`numDirectPartial, this`numDirectFull
      modifies this`numIndirectPartial, this`numIndirectFull, this`known, Arrays()
      ensures Valid() && known == failures
    {
      var j := 0;
      while j < |failures|
        invariant 0 <= j <= |failures| && Valid() && known == failures[..j]
      {
        ClassifyOne(failures[j]);
        assert failures[..j] + [failures[j]] == failures[..j + 1];
        j := j + 1;
      }
      assert failures[..j] == failures;
    }

    /** Walks round the ring from `from` to the first spine in the table. */
    method Seek(svt: array<int>, from: nat) returns (link: nat)
      requires from < svt.Length && AnyLive(InTable(svt[..]))
      ensures link == FirstLive(InTable(svt[..]), from)
    {
      ghost var live, n := InTable(svt[..]), svt.Length;
      ghost var target := FirstLive(live, from);
      FirstLiveIsNearest(live, from);
      link := from;
      assert Dist(n, from, link) == 0;
      hide Dist, FirstLive, Succ, Wrap;
      while svt[link] == -1
        invariant link < n
        invariant Dist(n, from, link) + Dist(n, link, target) == Dist(n, from, target)
        decreases Dist(n, link, target)
      {
        StepCloser(n, from, link, target);
        assert Succ(n, link) == (link + 1) % n;
        link := (link + 1) % svt.Length;
      }
      ReachedFirst(live, from, link);
    }

    /** The table of the flow's SVT. */
    method Table(ghost cs: seq<Class>) returns (svt: array<int>)
      requires Tracks(cs) && svtMapping in {0, 1, 10, 11, 12}
      ensures InTable(svt[..]) == Live(svtMapping, cs)
    {
      if svtMapping == 0 {
        svt := svtNoFailure;
      } else if svtMapping == 1 {
        svt := svtPartialFailure;
      } else if svtMapping == 10 {
        svt := svtDaNoFailure;
      } else if svtMapping == 11 {
        svt := svtDaPartialFailure;
      } else {
        svt := svtDaFullFailure;
      }
    }

    /** `nextValidLink`: the next spine of the flow's SVT. */
    method NextValidLink()
      requires Valid() && AnyLive(Live(svtMapping, Classes(known, pair, numUplinks)))
      modifies this`linkId
      ensures Valid()
      ensures linkId == Turn(Live(svtMapping, Classes(known, pair, numUplinks)), old(linkId), 1)
    {
      ghost var cs := Classes(known, pair, numUplinks);
      FirstTurn(Live(svtMapping, cs), linkId);
      hide Turn, FirstLive, ClassOf, Tally, Tables, Mask, IndirectMask, InTable, AnyLive;
      var link := (linkId + 1) % numUplinks;
      if svtMapping == 0 || svtMapping == 1 || svtMapping == 10 || svtMapping == 11 || svtMapping == 12 {
        var svt := Table(cs);
        link := Seek(svt, link);
      } else {
        LiveAtOnce(Live(svtMapping, cs), link);
      }
      linkId := link;
    }

    /** Successive turns over a fixed SVT. Any |SVT| of them return each member
        exactly once. */
    method NextLinks(count: nat) returns (picks: seq<nat>)
      requires Valid() && AnyLive(Live(svtMapping, Classes(known, pair, numUplinks)))
      modifies this`linkId
      ensures Valid() && |picks| == count
      ensures AreTurns(picks, Live(svtMapping, Classes(known, pair, numUplinks)), old(linkId))
      ensures count == |Members(Live(svtMapping, Classes(known, pair, numUplinks)))| ==>
                OnceEach(picks, Live(svtMapping, Classes(known, pair, numUplinks)))
    {
      hide Turn, Members, AnyLive, Live, Tables, Tally, ClassOf;
      ghost var live, start := Live(svtMapping, Classes(known, pair, numUplinks)), linkId;
      TurnStep(live, start, 0);
      picks := [];
      while |picks| < count
        invariant Valid() && |picks| <= count && AreTurns(picks, live, start)
        invariant linkId == Turn(live, start, |picks|)
      {
        TurnOnce(live, start, |picks|);
        NextValidLink();
        picks := picks + [linkId];
      }
      if count == |Members(live)| {
        RoundOfPicks(picks, live, start);
      }
    }

    /** The draw that maps a new flow to an SVT. */
    method ChooseSvt(q: Params, incomingTraffic: bool, uniform: (nat, nat) -> nat)
      requires Valid() && 1 <= q.failureRatio
      requires forall i, k | 0 < k :: uniform(i, k) < k
      requires 0 < BandwidthOf(q, Classes(known, pair, numUplinks)).total
      modifies this`svtMapping
      ensures Valid()
      ensures svtMapping == Choice(q, BandwidthOf(q, Classes(known, pair, numUplinks)), incomingTraffic, uniform)
    {
      hide Tally;
      var partialBw := numDirectPartial * (q.capacity / q.failureRatio);
      var healthyBw := (numUplinks - numDirectPartial - numDirectFull) * q.capacity;
      var totalBw := partialBw + healthyBw;
      var indirectBw := (numIndirectFull + numIndirectPartial) * q.capacity;
      if q.toFailedLeaf {
        totalBw := totalBw * (numUplinks - 1);
      }
      ghost var b := BandwidthOf(q, Classes(known, pair, numUplinks));
      assert b == Bandwidth(partialBw, healthyBw, numIndirectPartial * q.capacity, indirectBw, totalBw,
                            numIndirectFull + numIndirectPartial);
      BandwidthBounds(q, Classes(known, pair, numUplinks));
      var r := uniform(0, totalBw);
      if (q.flowsizeBytes < q.threshold || q.dynamicMapping) && !q.healthyPathOnly && r < partialBw {
        svtMapping := 1;
      } else {
        if !q.healthyPathOnly && !q.daSprayOnly && numIndirectFull + numIndirectPartial > 0 && incomingTraffic {
          var r' := uniform(1, healthyBw);
          if (q.flowsizeBytes < q.thresholdGL2GL || q.dynamicMapping) && r' < indirectBw {
            var r'' := uniform(2, indirectBw);
            if r'' < numIndirectPartial * q.capacity {
              svtMapping := 11;
            } else {
              svtMapping := 12;
            }
          } else {
            svtMapping := 10;
          }
        } else {
          svtMapping := 0;
        }
      }
    }

    /** Dynamic mapping: a flow that has sent enough leaves a failed SVT. */
    method RemapSvt(q: Params, ndatabytes: int)
      modifies this`svtMapping
      ensures svtMapping == Remap(q, old(svtMapping), ndatabytes)
    {
      if q.dynamicMapping && (svtMapping == 1 || svtMapping == 11 || svtMapping == 12) {
        if svtMapping == 1 && ndatabytes > q.threshold {
          if q.daSprayOnly {
            svtMapping := 0;
          } else {
            svtMapping := 10;
          }
        } else {
          if (svtMapping == 11 || svtMapping == 12) && ndatabytes > q.thresholdGL2GL {
            svtMapping := 10;
          }
        }
      }
    }

    /** A new flowcell of a sprayed flow: perhaps move to another SVT, then on to
        its next spine. */
    method NextFlowcell(q: Params, ndatabytes: int)
      requires Valid()
      requires AnyLive(Live(Remap(q, svtMapping, ndatabytes), Classes(known, pair, numUplinks)))
      modifies this`svtMapping, this`linkId
      ensures Valid()
      ensures old(Spinning(svtMapping, Classes(known, pair, numUplinks))) ==>
                Spinning(svtMapping, Classes(known, pair, numUplinks))
      ensures svtMapping == Remap(q, old(svtMapping), ndatabytes)
      ensures linkId == Turn(Live(svtMapping, Classes(known, pair, numUplinks)), old(linkId), 1)
      ensures Live(svtMapping, Classes(known, pair, numUplinks))[linkId]
    {
      hide Turn, FirstLive, ClassOf, Tally, Tables, Live, Remap, AnyLive, Dist;
      ghost var cs := Classes(known, pair, numUplinks);
      if Spinning(svtMapping, cs) {
        RemapKeepsSpinning(q, svtMapping, ndatabytes, cs);
      }
      RemapSvt(q, ndatabytes);
      NextTurnIsLive(Live(svtMapping, cs), linkId);
      NextValidLink();
    }
  }

  datatype Params = Params(flowsizeBytes: int, threshold: int, thresholdGL2GL: int, dynamicMapping: bool,
                           healthyPathOnly: bool, daSprayOnly: bool, toFailedLeaf: bool,
                           capacity: nat, failureRatio: nat)

  /** The entries of a table that `nextValidLink` stops at. */
  function InTable(table: seq<int>): (live: seq<bool>)
    ensures |live| == |table| && forall i | 0 <= i < |live| :: live[i] == (table[i] != -1)
  {
    seq(|table|, i requires 0 <= i < |table| => table[i] != -1)
  }

  /** The spines an SVT number stands for. */
  function Live(svt: int, cs: seq<Class>): (live: seq<bool>)
    ensures |live| == |cs|
  {
    match svt
    case 0 => IndirectMask(cs)
    case 1 => Mask(cs, DirectPartial)
    case 10 => Mask(cs, DaNone)
    case 11 => Mask(cs, DaPartial)
    case 12 => Mask(cs, DaFull)
    case _ => seq(|cs|, _ => true)
  }

  /** The bandwidths the choice is drawn from, and the number of spines with an
      indirect failure. */
  datatype Bandwidth = Bandwidth(partial: int, healthy: int, indirectPartial: int, indirect: int, total: int,
                                 indirectSpines: int)

  function BandwidthOf(q: Params, cs: seq<Class>): Bandwidth
    requires 1 <= q.failureRatio
  {
    var partial := Tally(cs, DirectPartial) * (q.capacity / q.failureRatio);
    var healthy := (|cs| - Tally(cs, DirectPartial) - Tally(cs, DirectFull)) * q.capacity;
    var spines := Tally(cs, DaFull) + Tally(cs, DaPartial);
    Bandwidth(partial, healthy, Tally(cs, DaPartial) * q.capacity, spines * q.capacity,
              if q.toFailedLeaf then (partial + healthy) * (|cs| - 1) else partial + healthy, spines)
  }

  /** The SVT a flow is mapped to; `uniform(i, k)` is the i-th draw, below k. */
  function Choice(q: Params, b: Bandwidth, incomingTraffic: bool, uniform: (nat, nat) -> nat): int
    requires 0 <= b.total
  {
    if (q.flowsizeBytes < q.threshold || q.dynamicMapping) && !q.healthyPathOnly &&
       uniform(0, b.total) < b.partial then 1
    else if q.healthyPathOnly || q.daSprayOnly || !incomingTraffic || b.indirectSpines <= 0 then 0
    else if (q.flowsizeBytes < q.thresholdGL2GL || q.dynamicMapping) &&
            uniform(1, NonNegative(b.healthy)) < b.indirect then
      if uniform(2, NonNegative(b.indirect)) < b.indirectPartial then 11 else 12
    else 10
  }

  function NonNegative(x: int): nat {
    if x < 0 then 0 else x
  }

  /** Only classes with a spine in them have bandwidth. */
  lemma BandwidthBounds(q: Params, cs: seq<Class>)
    requires 1 <= q.failureRatio
    ensures var b := BandwidthOf(q, cs);
            && 0 <= b.partial && 0 <= b.indirectPartial <= b.indirect <= b.healthy
            && (0 < b.partial ==> 0 < Tally(cs, DirectPartial))
            && (0 < b.indirectPartial ==> 0 < Tally(cs, DaPartial))
            && (b.indirectPartial < b.indirect ==> 0 < Tally(cs, DaFull))
            && (0 < q.capacity ==> b.indirectSpines <= b.indirect)
  {
    TallyAll(cs);
    hide Tally;
    var full, partial, c := Tally(cs, DaFull), Tally(cs, DaPartial), q.capacity;
    ProductNonNegative(Tally(cs, DirectPartial), c / q.failureRatio);
    ProductNonNegative(partial, c);
    ProductNonNegative(full, c);
    ProductNonNegative(Tally(cs, DaNone), c);
    assert (full + partial) * c == full * c + partial * c;
    assert (full + partial + Tally(cs, DaNone)) * c == (full + partial) * c + Tally(cs, DaNone) * c;
    if 0 < c && 0 < full + partial {
      ProductAtLeast(full + partial, c);
    }
  }

  function Remap(q: Params, svt: int, ndatabytes: int): int {
    if !q.dynamicMapping then svt
    else if svt == 1 && ndatabytes > q.threshold then if q.daSprayOnly then 0 else 10
    else if (svt == 11 || svt == 12) && ndatabytes > q.thresholdGL2GL then 10
    else svt
  }

  /** Rotation over `svt`, and over any SVT it may be remapped to, halts. */
  ghost predicate Spinning(svt: int, cs: seq<Class>) {
    AnyLive(Live(svt, cs)) && AnyLive(Live(10, cs))
  }

  lemma AllHealthy(p: Pair, n: nat)
    ensures forall s | 0 <= s < n :: Classes([], p, n)[s] == DaNone
    ensures Tally(Classes([], p, n), DirectPartial) == Tally(Classes([], p, n), DirectFull) == 0
    ensures Tally(Classes([], p, n), DaPartial) == Tally(Classes([], p, n), DaFull) == 0
  {
    var cs := Classes([], p, n);
    forall c: Class | c != DaNone
      ensures Tally(cs, c) == 0
    {
      TallyPositive(cs, c);
    }
  }

  lemma TallyUpdateAll(cs: seq<Class>, i: nat, d: Class)
    requires i < |cs|
    ensures forall c :: Tally(cs[i := d], c) + (if cs[i] == c then 1 else 0) == Tally(cs, c) + if d == c then 1 else 0
  {
    forall c {
      TallyUpdate(cs, i, d, c);
    }
  }

  lemma FirstTurn(live: seq<bool>, link: nat)
    requires link < |live|
    ensures Turn(live, link, 1) == FirstLive(live, (link + 1) % |live|)
  {
    assert Turn(live, link, 0) == link && Succ(|live|, link) == (link + 1) % |live|;
  }

  lemma NextTurnIsLive(live: seq<bool>, link: nat)
    requires link < |live| && AnyLive(live)
    ensures live[Turn(live, link, 1)]
  {
    FirstTurn(live, link);
    FirstLiveIsNearest(live, (link + 1) % |live|);
  }

  lemma LiveAtOnce(live: seq<bool>, link: nat)
    requires link < |live| && live[link]
    ensures FirstLive(live, link) == link
  {}

  lemma LiveIffInClass(cs: seq<Class>, c: Class)
    ensures AnyLive(Mask(cs, c)) <==> 0 < Tally(cs, c)
  {
    TallyPositive(cs, c);
    if c in cs {
      var i :| 0 <= i < |cs| && cs[i] == c;
      assert Mask(cs, c)[i];
    }
  }

  lemma LiveByClass(cs: seq<Class>)
    ensures AnyLive(Live(0, cs)) <==> Tally(cs, DirectPartial) + Tally(cs, DirectFull) < |cs|
    ensures AnyLive(Live(1, cs)) <==> 0 < Tally(cs, DirectPartial)
    ensures AnyLive(Live(10, cs)) <==> 0 < Tally(cs, DaNone)
    ensures AnyLive(Live(11, cs)) <==> 0 < Tally(cs, DaPartial)
    ensures AnyLive(Live(12, cs)) <==> 0 < Tally(cs, DaFull)
  {
    hide Tally, Members, AnyLive;
    IndirectMembers(cs);
    MembersIffLive(IndirectMask(cs));
    LiveIffInClass(cs, DirectPartial);
    LiveIffInClass(cs, DaNone);
    LiveIffInClass(cs, DaPartial);
    LiveIffInClass(cs, DaFull);
  }

  /** Whatever the draws, the SVT chosen is empty only in two cases: every spine
      has a direct failure, or every spine has some failure. A flow is never sent
      to an empty set of failed spines. */
  lemma ChoiceIsEmptyOnlyWhen(q: Params, cs: seq<Class>, incomingTraffic: bool, uniform: (nat, nat) -> nat)
    requires 1 <= q.failureRatio && 0 < q.capacity && 0 < BandwidthOf(q, cs).total
    requires forall i, k | 0 < k :: uniform(i, k) < k
    ensures var svt := Choice(q, BandwidthOf(q, cs), incomingTraffic, uniform);
            && svt in {0, 1, 10, 11, 12}
            && (!AnyLive(Live(svt, cs)) <==>
                 (svt == 0 && Tally(cs, DirectPartial) + Tally(cs, DirectFull) == |cs|) ||
                 (svt == 10 && Tally(cs, DaNone) == 0))
  {
    BandwidthBounds(q, cs);
    LiveByClass(cs);
    TallyAll(cs);
    hide BandwidthOf, Tally, Live;
    var b := BandwidthOf(q, cs);
    var svt := Choice(q, b, incomingTraffic, uniform);
    assert svt == 12 ==> b.indirectPartial <= uniform(2, b.indirect) && 0 < b.indirect;
  }

  /** With one spine free of any failure, the chosen SVT always rotates. */
  lemma ChoiceSpins(q: Params, cs: seq<Class>, incomingTraffic: bool, uniform: (nat, nat) -> nat)
    requires 1 <= q.failureRatio && 0 < q.capacity && 0 < BandwidthOf(q, cs).total && DaNone in cs
    requires forall i, k | 0 < k :: uniform(i, k) < k
    ensures Spinning(Choice(q, BandwidthOf(q, cs), incomingTraffic, uniform), cs)
  {
    TallyPositive(cs, DaNone);
    TallyAll(cs);
    LiveByClass(cs);
    ChoiceIsEmptyOnlyWhen(q, cs, incomingTraffic, uniform);
  }

  lemma RemapKeepsSpinning(q: Params, svt: int, ndatabytes: int, cs: seq<Class>)
    requires Spinning(svt, cs)
    ensures Spinning(Remap(q, svt, ndatabytes), cs)
  {
    LiveByClass(cs);
    TallyAll(cs);
  }

  /** A healthy spine makes the draw well defined. */
  lemma TotalIsPositive(q: Params, cs: seq<Class>)
    requires 1 <= q.failureRatio && 0 < q.capacity && DaNone in cs && 2 <= |cs|
    ensures 0 < BandwidthOf(q, cs).total
  {
    TallyPositive(cs, DaNone);
    TallyAll(cs);
    hide Tally;
    var healthy := |cs| - Tally(cs, DirectPartial) - Tally(cs, DirectFull);
    ProductAtLeast(q.capacity, healthy);
    var partial := Tally(cs, DirectPartial) * (q.capacity / q.failureRatio);
    ProductNonNegative(Tally(cs, DirectPartial), q.capacity / q.failureRatio);
    assert q.capacity <= partial + healthy * q.capacity;
    ProductAtLeast(partial + healthy * q.capacity, |cs| - 1);
  }
}
