/** `MultiPathForwarder::classify`: random packet spraying and the forward search
    that keeps a flowcell off a dead slot. */
module MultiPaths {
  import opened Rotation

  class MultiPathForwarder {
    const slot: array<bool>   // true for a live slot
    var ns: nat

    ghost predicate Valid()
      reads this
    {
      ns < slot.Length
    }

    constructor (slot: array<bool>)
      requires 0 < slot.Length
      ensures Valid() && this.slot == slot && ns == 0
    {
      this.slot := slot;
      ns := 0;
    }

    /** The slot used last: spraying resumes after it. */
    ghost function Last(): (r: nat)
      requires Valid()
      reads this
      ensures r < slot.Length && Succ(slot.Length, r) == ns
    {
      if ns == 0 then slot.Length - 1 else ns - 1
    }

    /** Random packet spraying: each packet takes the next live slot. With no live
        slot the search gives up after one round, where it started. */
    method Spray() returns (cl: nat)
      requires Valid()
      modifies this`ns
      ensures Valid() && cl < slot.Length && Last() == cl
      ensures AnyLive(slot[..]) ==> cl == Turn(slot[..], old(Last()), 1) && slot[cl]
      ensures !AnyLive(slot[..]) ==> cl == old(Last())
    {
      ghost var live, n, start := slot[..], slot.Length, ns;
      ghost var target := FirstLive(live, start);
      FirstSpray(live, Last());
      var fail := ns;
      cl := ns;
      ns := ns + 1;
      ns := ns % slot.Length;
      ghost var steps := 0;
      hide Turn, FirstLive, AnyLive;
      while !slot[cl] && ns != fail
        invariant cl < n && ns == Succ(n, cl)
        invariant steps < n && cl == Wrap(n, start, steps)
        invariant forall i | 0 <= i < steps :: !live[Wrap(n, start, i)]
        decreases n - steps
      {
        cl := ns;
        ns := ns + 1;
        ns := ns % slot.Length;
        steps := steps + 1;
      }
      SearchStops(live, start, steps);
    }

    /** Successive packets. Any L of them use each of the L live slots exactly once. */
    method SprayMany(count: nat) returns (picks: seq<nat>)
      requires Valid() && AnyLive(slot[..])
      modifies this`ns
      ensures Valid() && |picks| == count && AreTurns(picks, slot[..], old(Last()))
      ensures count == |Members(slot[..])| ==> OnceEach(picks, slot[..])
    {
      hide Turn, Members, AnyLive;
      ghost var live, start := slot[..], Last();
      TurnStep(live, start, 0);
      picks := [];
      while |picks| < count
        invariant Valid() && |picks| <= count && AreTurns(picks, live, start)
        invariant Last() == Turn(live, start, |picks|)
      {
        TurnOnce(live, start, |picks|);
        var cl := Spray();
        picks := picks + [cl];
      }
      if count == |Members(live)| {
        RoundOfPicks(picks, live, start);
      }
    }

    /** The flowcell branch: the slot the sender asked for, or the first live one
        after it. */
    method ForwardFlowcell(linkId: nat) returns (cl: nat)
      requires linkId < slot.Length && AnyLive(slot[..])
      modifies this`ns
      ensures ns == linkId && cl == FirstLive(slot[..], linkId) && slot[cl]
    {
      ghost var live, n := slot[..], slot.Length;
      ghost var target := FirstLive(live, linkId);
      FirstLiveIsNearest(live, linkId);
      ns := linkId;
      cl := ns;
      assert Dist(n, linkId, linkId) == 0;
      hide Dist, FirstLive, Succ;
      while !slot[cl]
        invariant ns == linkId && cl < n && Dist(n, linkId, cl) + Dist(n, cl, target) == Dist(n, linkId, target)
        decreases Dist(n, cl, target)
      {
        StepCloser(n, linkId, cl, target);
        cl := (cl + 1) % slot.Length;
      }
      ReachedFirst(live, linkId, cl);
    }
  }

  lemma FirstSpray(live: seq<bool>, last: nat)
    requires last < |live|
    ensures Turn(live, last, 1) == FirstLive(live, Succ(|live|, last))
  {
    assert Turn(live, last, 0) == last;
  }

  /** Where the spraying search stops. */
  lemma SearchStops(live: seq<bool>, start: nat, steps: nat)
    requires start < |live| && steps < |live|
    requires forall i | 0 <= i < steps :: !live[Wrap(|live|, start, i)]
    requires live[Wrap(|live|, start, steps)] || Succ(|live|, Wrap(|live|, start, steps)) == start
    ensures AnyLive(live) ==> Wrap(|live|, start, steps) == FirstLive(live, start) && live[FirstLive(live, start)]
    ensures !AnyLive(live) ==> Succ(|live|, Wrap(|live|, start, steps)) == start
  {
    if AnyLive(live) {
      FirstLiveIsNearest(live, start);
      var d := Offset(live, start, 0);
      assert !(d < steps);
      assert steps < d ==> steps + 1 == |live|;
    }
  }
}
