/** Probabilistic weighted spraying (WPS-P, WFCS-P): uplink weights and the draw. */
module WeightedPicks {
  import opened SpineClasses

  /** Failure ratios divide 10 in the source, so zero is a caller's error. */
  predicate RatiosPositive(fs: seq<FailedLink>) {
    forall f | f in fs :: 1 <= f.failureRatio
  }

  /** The weight of uplink `i`, by the first failure of this pair listed on it. */
  function WeightOf(fs: seq<FailedLink>, p: Pair, i: nat): nat
    requires RatiosPositive(fs)
  {
    if fs == [] then 10
    else if fs[0].spine == i && IsDirect(fs[0], p) then
      assert fs[0] in fs;
      if IsFull(fs[0]) then 0 else 10 / fs[0].failureRatio
    else
      assert forall f | f in fs[1..] :: f in fs;
      WeightOf(fs[1..], p, i)
  }

  /** An uplink is shut out exactly when the first failure of this pair listed on
      it has a ratio above 10: full failures, but partial ones too. */
  lemma {:induction false} ZeroWeightIff(fs: seq<FailedLink>, p: Pair, i: nat)
    requires RatiosPositive(fs)
    ensures WeightOf(fs, p, i) == 0 <==>
            exists k | 0 <= k < |fs| :: FirstOn(fs, p, i, k) && fs[k].failureRatio > 10
  {
    if fs != [] {
      var f, rest := fs[0], fs[1..];
      assert f in fs && forall g | g in rest :: g in fs;
      if f.spine == i && IsDirect(f, p) {
        assert FirstOn(fs, p, i, 0);
        assert forall k | 0 < k < |fs| :: !FirstOn(fs, p, i, k);
      } else {
        ZeroWeightIff(rest, p, i);
        if k: nat :| k < |rest| && FirstOn(rest, p, i, k) && rest[k].failureRatio > 10 {
          assert forall j: nat | 0 < j <= |rest| :: fs[j] == rest[j - 1];
          assert FirstOn(fs, p, i, k + 1);
        }
        if k: nat :| k < |fs| && FirstOn(fs, p, i, k) && fs[k].failureRatio > 10 {
          assert forall j: nat | j < |rest| :: rest[j] == fs[j + 1];
          assert FirstOn(rest, p, i, k - 1);
        }
      }
    }
  }

  /** Failure `k` is the first one listed for this pair on uplink `i`. */
  ghost predicate FirstOn(fs: seq<FailedLink>, p: Pair, i: nat, k: nat)
    requires k < |fs|
  {
    && fs[k].spine == i && IsDirect(fs[k], p)
    && forall j | 0 <= j < k :: !(fs[j].spine == i && IsDirect(fs[j], p))
  }

  /** The sum of the first `n` weights. */
  function Prefix(ws: seq<nat>, n: nat): nat
    requires n <= |ws|
  {
    if n == 0 then 0 else Prefix(ws, n - 1) + ws[n - 1]
  }

  function Total(ws: seq<nat>): nat {
    Prefix(ws, |ws|)
  }

  /** The draws that select uplink `i`. */
  ghost predicate Selects(ws: seq<nat>, draw: nat, i: nat)
    requires i < |ws|
  {
    Prefix(ws, i) <= draw < Prefix(ws, i + 1)
  }

  lemma {:induction false} PrefixMonotone(ws: seq<nat>, i: nat, j: nat)
    requires i <= j <= |ws|
    ensures Prefix(ws, i) <= Prefix(ws, j)
  {
    if i < j {
      PrefixMonotone(ws, i, j - 1);
    }
  }

  method ComputeWeights(fs: seq<FailedLink>, p: Pair, numUplinks: nat)
    returns (weights: array<nat>, totalUplinkWeights: nat)
    requires RatiosPositive(fs)
    ensures fresh(weights) && weights.Length == numUplinks
    ensures forall i | 0 <= i < numUplinks :: weights[i] == WeightOf(fs, p, i)
    ensures weights[..] == WeightsOf(fs, p, numUplinks) && totalUplinkWeights == Total(weights[..])
  {
    weights := new nat[numUplinks](_ => 0);
    totalUplinkWeights := 0;
    var i := 0;
    while i < numUplinks
      invariant 0 <= i <= numUplinks
      invariant forall k | 0 <= k < i :: weights[k] == WeightOf(fs, p, k)
      invariant totalUplinkWeights == Prefix(weights[..], i)
    {
      var uplinkFailureRatio := 1;
      var j := 0;
      while j < |fs|
        invariant 0 <= j <= |fs| && RatiosPositive(fs[j..])
        invariant WeightOf(fs, p, i) == WeightOf(fs[j..], p, i) && uplinkFailureRatio == 1
      {
        if i == fs[j].spine && (fs[j].leaf == p.srcLeaf || fs[j].leaf == p.destLeaf) {
          uplinkFailureRatio := fs[j].failureRatio;
          break;
        }
        j := j + 1;
      }
      ghost var was := weights[..];
      if uplinkFailureRatio == 100 {
        weights[i] := 0;
      } else {
        weights[i] := 10 / uplinkFailureRatio;
      }
      SamePrefix(was, weights[..], i);
      totalUplinkWeights := totalUplinkWeights + weights[i];
      i := i + 1;
    }
  }

  lemma {:induction false} SamePrefix(ws: seq<nat>, ws': seq<nat>, n: nat)
    requires n <= |ws| && n <= |ws'| && forall k | 0 <= k < n :: ws[k] == ws'[k]
    ensures Prefix(ws, n) == Prefix(ws', n)
  {
    if n > 0 {
      SamePrefix(ws, ws', n - 1);
    }
  }

  /** The link of a new flowcell. With a draw below the total the fallback link is
      never used and an uplink of weight zero is never chosen. */
  method Pick(weights: array<nat>, randomNumber: nat, fallback: int) returns (linkId: int)
    requires randomNumber < Total(weights[..])
    ensures 0 <= linkId < weights.Length && 0 < weights[linkId]
    ensures Selects(weights[..], randomNumber, linkId)
  {
    var counter, weightsAdded := 0, 0;
    linkId := -1;
    ghost var ws := weights[..];
    while linkId < 0 && counter < weights.Length
      invariant 0 <= counter <= weights.Length && -1 <= linkId < weights.Length
      invariant linkId < 0 ==> weightsAdded == Prefix(ws, counter) && weightsAdded <= randomNumber
      invariant linkId >= 0 ==> Selects(ws, randomNumber, linkId)
      decreases weights.Length - counter, if linkId < 0 then 1 else 0
    {
      weightsAdded := weightsAdded + weights[counter];
      if randomNumber < weightsAdded {
        linkId := counter;
      } else {
        counter := counter + 1;
      }
    }
    if linkId < 0 {
      linkId := fallback;
    }
  }

  lemma SelectsOne(ws: seq<nat>, draw: nat, i: nat, j: nat)
    requires i < |ws| && j < |ws| && Selects(ws, draw, i) && Selects(ws, draw, j)
    ensures i == j
  {
    if i < j {
      PrefixMonotone(ws, i + 1, j);
    } else if j < i {
      PrefixMonotone(ws, j + 1, i);
    }
  }

  function Interval(lo: nat, hi: nat): (s: set<nat>)
    requires lo <= hi
    ensures |s| == hi - lo && forall x :: x in s <==> lo <= x < hi
    decreases hi - lo
  {
    if lo == hi then {} else Interval(lo, hi - 1) + {hi - 1}
  }

  /** Exactly weight-many of the equally likely draws select each uplink. */
  lemma ExactShare(ws: seq<nat>, i: nat)
    requires i < |ws|
    ensures var draws := set draw | draw in Interval(0, Total(ws)) && Selects(ws, draw, i);
            |draws| == ws[i]
  {
    PrefixMonotone(ws, i + 1, |ws|);
    var draws := set draw | draw in Interval(0, Total(ws)) && Selects(ws, draw, i);
    assert draws == Interval(Prefix(ws, i), Prefix(ws, i + 1));
  }

  /** A draw is possible exactly when some uplink has weight. */
  lemma {:induction false} PrefixPositiveIff(ws: seq<nat>, n: nat)
    requires n <= |ws|
    ensures 0 < Prefix(ws, n) <==> exists i | 0 <= i < n :: 0 < ws[i]
  {
    if n > 0 {
      PrefixPositiveIff(ws, n - 1);
    }
  }

  /** The weights for a list of failures. */
  function WeightsOf(fs: seq<FailedLink>, p: Pair, n: nat): (ws: seq<nat>)
    requires RatiosPositive(fs)
    ensures |ws| == n && forall i | 0 <= i < n :: ws[i] == WeightOf(fs, p, i)
  {
    seq(n, i requires 0 <= i < n => WeightOf(fs, p, i))
  }

  /** The uplink is shut out: the first failure of this pair listed on it has a ratio
      above 10. */
  ghost predicate ShutOut(fs: seq<FailedLink>, p: Pair, i: nat) {
    exists k: nat :: k < |fs| && FirstOn(fs, p, i, k) && fs[k].failureRatio > 10
  }

  /** For a list of failures, a draw is possible exactly when some uplink is not shut
      out. */
  lemma DrawPossibleIff(fs: seq<FailedLink>, p: Pair, n: nat)
    requires RatiosPositive(fs)
    ensures 0 < Total(WeightsOf(fs, p, n)) <==> exists i: nat :: i < n && !ShutOut(fs, p, i)
  {
    var ws := WeightsOf(fs, p, n);
    PrefixPositiveIff(ws, n);
    forall i: nat | i < n
      ensures 0 < ws[i] <==> !ShutOut(fs, p, i)
    {
      ZeroWeightIff(fs, p, i);
    }
  }

  /** The value of a weight: nothing for a full failure, the largest w with
      w * ratio <= 10 for a partial one, 10 without a failure of this pair. */
  lemma {:induction false} WeightIs(fs: seq<FailedLink>, p: Pair, i: nat)
    requires RatiosPositive(fs)
    ensures forall k: nat | k < |fs| && FirstOn(fs, p, i, k) ::
              var w, ratio := WeightOf(fs, p, i), fs[k].failureRatio;
              if ratio == 100 then w == 0 else w * ratio <= 10 < (w + 1) * ratio
    ensures (forall k: nat | k < |fs| :: !(fs[k].spine == i && IsDirect(fs[k], p))) ==> WeightOf(fs, p, i) == 10
  {
    if fs != [] {
      var f, rest := fs[0], fs[1..];
      assert f in fs && forall g | g in rest :: g in fs;
      if f.spine == i && IsDirect(f, p) {
        TenthsOf(f.failureRatio);
        assert forall k: nat | 0 < k < |fs| :: !FirstOn(fs, p, i, k);
      } else {
        WeightIs(rest, p, i);
        assert forall j: nat | 0 < j <= |rest| :: fs[j] == rest[j - 1];
        forall k: nat | k < |fs| && FirstOn(fs, p, i, k)
          ensures 0 < k && FirstOn(rest, p, i, k - 1)
        {
          assert forall j: nat | j < |rest| :: rest[j] == fs[j + 1];
        }
      }
    }
  }

  lemma TenthsOf(ratio: int)
    requires 1 <= ratio
    ensures (10 / ratio) * ratio <= 10 < (10 / ratio + 1) * ratio
  {
    var w := 10 / ratio;
    assert 10 == ratio * w + 10 % ratio;
  }

  /** A partial failure of ratio 20 shuts its uplink out. */
  lemma PartialIsShutOut()
    ensures var fs, p := [FailedLink(0, 0, 20)], Pair(0, 1);
            !IsFull(fs[0]) && ClassOf(fs, p, 0) == DirectPartial && WeightOf(fs, p, 0) == 0
  {
    var fs, p := [FailedLink(0, 0, 20)], Pair(0, 1);
    assert fs[0] in fs && HasDirect(fs, p, 0);
  }
}
