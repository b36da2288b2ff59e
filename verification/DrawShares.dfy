/** How many of the equally likely draws map a flow to each set of spines, told from the
    sizes of the classes. */
module DrawShares {
  import opened Arith
  import opened SpineClasses
  import opened Spraying
  import opened SprayFlows
  import opened WeightedPicks

  /** The spines of a class. */
  function SpinesOf(cs: seq<Class>, c: Class): set<nat> {
    set s: nat | s < |cs| && cs[s] == c
  }

  lemma {:induction false} TallyIsSize(cs: seq<Class>, c: Class)
    ensures Tally(cs, c) == |SpinesOf(cs, c)|
  {
    if cs != [] {
      var n := |cs| - 1;
      TallyIsSize(cs[..n], c);
      assert SpinesOf(cs, c) == SpinesOf(cs[..n], c) + if cs[n] == c then {n} else {};
    }
  }

  /** What the draws are made of: the bandwidth of the partially failed spines, of the
      spines without a direct failure, and of those with an indirect one. */
  datatype Shares = Shares(weak: nat, spared: nat, indirectPartial: nat, indirect: nat, total: int)

  ghost function SharesOf(q: Params, cs: seq<Class>): Shares
    requires 1 <= q.failureRatio
  {
    var weak := |SpinesOf(cs, DirectPartial)| * (q.capacity / q.failureRatio);
    var dp := |SpinesOf(cs, DaPartial)| * q.capacity;
    var df := |SpinesOf(cs, DaFull)| * q.capacity;
    var spared := |SpinesOf(cs, DaNone)| * q.capacity + dp + df;
    ProductNonNegative(|SpinesOf(cs, DirectPartial)|, q.capacity / q.failureRatio);
    ProductNonNegative(|SpinesOf(cs, DaNone)|, q.capacity);
    ProductNonNegative(|SpinesOf(cs, DaPartial)|, q.capacity);
    ProductNonNegative(|SpinesOf(cs, DaFull)|, q.capacity);
    Shares(weak, spared, dp, dp + df, if q.toFailedLeaf then (weak + spared) * (|cs| - 1) else weak + spared)
  }

  lemma SharesAreBandwidth(q: Params, cs: seq<Class>)
    requires 1 <= q.failureRatio
    ensures var b, h := BandwidthOf(q, cs), SharesOf(q, cs);
            && b.partial == h.weak && b.healthy == h.spared && b.indirectPartial == h.indirectPartial
            && b.indirect == h.indirect && b.total == h.total
            && b.indirectSpines == |SpinesOf(cs, DaPartial)| + |SpinesOf(cs, DaFull)|
  {
    TallyIsSize(cs, DirectPartial);
    TallyIsSize(cs, DaNone);
    TallyIsSize(cs, DaPartial);
    TallyIsSize(cs, DaFull);
    TallyAll(cs);
    hide Tally, SpinesOf;
    var p, f, n, c := Tally(cs, DaPartial), Tally(cs, DaFull), Tally(cs, DaNone), q.capacity;
    assert (p + f) * c == p * c + f * c;
    assert (n + p + f) * c == n * c + p * c + f * c;
  }

  /** Three draws: below the total, below the spared bandwidth, below the indirect one.
      A draw asked for with any other bound gives nothing of use. */
  function Draw(h: Shares, r0: nat, r1: nat, r2: nat): (nat, nat) -> nat {
    (i: nat, k: nat) =>
      if i == 0 && k == h.total then r0
      else if i == 1 && k == h.spared then r1
      else if i == 2 && k == h.indirect then r2
      else k
  }

  ghost function SvtFor(q: Params, cs: seq<Class>, incomingTraffic: bool, r0: nat, r1: nat, r2: nat): int
    requires Drawable(q, cs)
  {
    Choice(q, BandwidthOf(q, cs), incomingTraffic, Draw(SharesOf(q, cs), r0, r1, r2))
  }

  /** The first draws that give the SVT of partially failed spines. */
  ghost function PartialDraws(q: Params, cs: seq<Class>, incomingTraffic: bool, r1: nat, r2: nat): set<nat>
    requires Drawable(q, cs)
  {
    set r | r in Interval(0, NonNegative(SharesOf(q, cs).total)) && SvtFor(q, cs, incomingTraffic, r, r1, r2) == 1
  }

  /** The second draws that give an SVT of indirect failures. */
  ghost function IndirectDraws(q: Params, cs: seq<Class>, incomingTraffic: bool, r0: nat, r2: nat): set<nat>
    requires Drawable(q, cs)
  {
    set r | r in Interval(0, SharesOf(q, cs).spared) && SvtFor(q, cs, incomingTraffic, r0, r, r2) in {11, 12}
  }

  /** The third draws that give the one of indirect partial failures. */
  ghost function IndirectPartialDraws(q: Params, cs: seq<Class>, incomingTraffic: bool, r0: nat, r1: nat): set<nat>
    requires Drawable(q, cs)
  {
    set r | r in Interval(0, SharesOf(q, cs).indirect) && SvtFor(q, cs, incomingTraffic, r0, r1, r) == 11
  }

  lemma WeakWithinTotal(q: Params, cs: seq<Class>)
    requires Drawable(q, cs)
    ensures var h := SharesOf(q, cs); h.weak <= h.total && 0 < h.total && h.indirectPartial <= h.indirect <= h.spared
  {
    SharesAreBandwidth(q, cs);
    var h := SharesOf(q, cs);
    hide BandwidthOf;
    if q.toFailedLeaf {
      PartOfProduct(h.weak, h.weak + h.spared, |cs| - 1);
    }
  }

  lemma PartOfProduct(part: nat, whole: nat, times: int)
    requires part <= whole && 0 < whole * times
    ensures part <= whole * times
  {
    if times <= 0 {
      ProductNonPositive(whole, times);
    }
    ProductAtLeast(whole, times);
  }

  /** The bandwidths the choice is made from are those shares. */
  ghost predicate Matches(b: Bandwidth, h: Shares) {
    && b.partial == h.weak && b.healthy == h.spared && b.indirectPartial == h.indirectPartial
    && b.indirect == h.indirect && b.total == h.total && (b.indirectSpines <= 0 <==> h.indirect == 0)
    && h.weak <= h.total && 0 < h.total && h.indirectPartial <= h.indirect <= h.spared
  }

  lemma BandwidthMatches(q: Params, cs: seq<Class>)
    requires Drawable(q, cs)
    ensures Matches(BandwidthOf(q, cs), SharesOf(q, cs))
  {
    SharesAreBandwidth(q, cs);
    WeakWithinTotal(q, cs);
    NoIndirectSpine(q, cs);
    hide BandwidthOf, SharesOf, SpinesOf;
  }

  lemma FirstDraw(q: Params, b: Bandwidth, h: Shares, incomingTraffic: bool, r0: nat, r1: nat, r2: nat)
    requires Matches(b, h) && r0 < h.total
    ensures Choice(q, b, incomingTraffic, Draw(h, r0, r1, r2)) == 1 <==> MayTakePartial(q) && r0 < h.weak
  {}

  lemma SecondDraw(q: Params, b: Bandwidth, h: Shares, incomingTraffic: bool, r0: nat, r1: nat, r2: nat)
    requires Matches(b, h) && !IgnoresIndirect(q, incomingTraffic) && (MayTakePartial(q) ==> h.weak <= r0)
    requires r1 < h.spared
    ensures Choice(q, b, incomingTraffic, Draw(h, r0, r1, r2)) in {11, 12} <==> MayTakeIndirect(q) && r1 < h.indirect
  {}

  lemma ThirdDraw(q: Params, b: Bandwidth, h: Shares, incomingTraffic: bool, r0: nat, r1: nat, r2: nat)
    requires Matches(b, h) && !IgnoresIndirect(q, incomingTraffic) && (MayTakePartial(q) ==> h.weak <= r0)
    requires MayTakeIndirect(q) && r1 < h.indirect && r2 < h.indirect
    ensures Choice(q, b, incomingTraffic, Draw(h, r0, r1, r2)) == 11 <==> r2 < h.indirectPartial
  {}

  /** A flow that may take partially failed spines is sent there by exactly
      (partial spines) * (capacity / ratio) of the draws: out of that and the capacity
      of the spared spines, times n - 1 towards a failed leaf. No other flow is. */
  lemma ShareOfPartial(q: Params, cs: seq<Class>, incomingTraffic: bool, r1: nat, r2: nat)
    requires Drawable(q, cs)
    ensures var h := SharesOf(q, cs);
            && h.weak <= h.total
            && |PartialDraws(q, cs, incomingTraffic, r1, r2)| == if MayTakePartial(q) then h.weak else 0
  {
    hide BandwidthOf, SharesOf, Choice, MayTakePartial;
    BandwidthMatches(q, cs);
    var h := SharesOf(q, cs);
    forall r: nat | r < h.total
      ensures SvtFor(q, cs, incomingTraffic, r, r1, r2) == 1 <==> MayTakePartial(q) && r < h.weak
    {
      FirstDraw(q, BandwidthOf(q, cs), h, incomingTraffic, r, r1, r2);
    }
    assert PartialDraws(q, cs, incomingTraffic, r1, r2) == Interval(0, if MayTakePartial(q) then h.weak else 0);
  }

  /** Of the flows not sent there, those that may take spines with an indirect failure
      are sent to them by exactly (indirect spines) * capacity of the draws below the
      spared bandwidth. */
  lemma ShareOfIndirect(q: Params, cs: seq<Class>, incomingTraffic: bool, r0: nat, r2: nat)
    requires Drawable(q, cs) && !IgnoresIndirect(q, incomingTraffic)
    requires MayTakePartial(q) ==> SharesOf(q, cs).weak <= r0
    ensures var h := SharesOf(q, cs);
            && h.indirect <= h.spared
            && |IndirectDraws(q, cs, incomingTraffic, r0, r2)| == if MayTakeIndirect(q) then h.indirect else 0
  {
    hide BandwidthOf, SharesOf, Choice, MayTakePartial, MayTakeIndirect, IgnoresIndirect;
    BandwidthMatches(q, cs);
    var h := SharesOf(q, cs);
    forall r: nat | r < h.spared
      ensures SvtFor(q, cs, incomingTraffic, r0, r, r2) in {11, 12} <==> MayTakeIndirect(q) && r < h.indirect
    {
      SecondDraw(q, BandwidthOf(q, cs), h, incomingTraffic, r0, r, r2);
    }
    assert IndirectDraws(q, cs, incomingTraffic, r0, r2) == Interval(0, if MayTakeIndirect(q) then h.indirect else 0);
  }

  lemma NoIndirectSpine(q: Params, cs: seq<Class>)
    requires 1 <= q.failureRatio && 0 < q.capacity
    ensures SharesOf(q, cs).indirect == 0 <==> |SpinesOf(cs, DaPartial)| + |SpinesOf(cs, DaFull)| == 0
  {
    ProductAtLeast(|SpinesOf(cs, DaPartial)|, q.capacity);
    ProductAtLeast(|SpinesOf(cs, DaFull)|, q.capacity);
  }

  /** Of those, exactly (spines with an indirect partial failure) * capacity of the
      draws below the indirect bandwidth go to the indirect partial failures. */
  lemma ShareOfIndirectPartial(q: Params, cs: seq<Class>, incomingTraffic: bool, r0: nat, r1: nat)
    requires Drawable(q, cs) && !IgnoresIndirect(q, incomingTraffic) && MayTakeIndirect(q)
    requires MayTakePartial(q) ==> SharesOf(q, cs).weak <= r0
    requires r1 < SharesOf(q, cs).indirect
    ensures var h := SharesOf(q, cs);
            && h.indirectPartial <= h.indirect
            && |IndirectPartialDraws(q, cs, incomingTraffic, r0, r1)| == h.indirectPartial
  {
    hide BandwidthOf, SharesOf, Choice, MayTakePartial, MayTakeIndirect, IgnoresIndirect;
    BandwidthMatches(q, cs);
    var h := SharesOf(q, cs);
    forall r: nat | r < h.indirect
      ensures SvtFor(q, cs, incomingTraffic, r0, r1, r) == 11 <==> r < h.indirectPartial
    {
      ThirdDraw(q, BandwidthOf(q, cs), h, incomingTraffic, r0, r1, r);
    }
    assert IndirectPartialDraws(q, cs, incomingTraffic, r0, r1) == Interval(0, h.indirectPartial);
  }

  /** Every other flow: to the spines without a direct failure where indirect ones are
      ignored or there are none, otherwise to those free of failure. */
  lemma RestOfFlows(q: Params, cs: seq<Class>, incomingTraffic: bool, r0: nat, r1: nat, r2: nat)
    requires Drawable(q, cs) && (MayTakePartial(q) ==> SharesOf(q, cs).weak <= r0)
    ensures var svt, h := SvtFor(q, cs, incomingTraffic, r0, r1, r2), SharesOf(q, cs);
            && (IgnoresIndirect(q, incomingTraffic) || h.indirect == 0 ==> svt == 0)
            && (!IgnoresIndirect(q, incomingTraffic) && 0 < h.indirect ==>
                  (!MayTakeIndirect(q) || h.indirect <= r1) ==> svt == 10)
  {
    BandwidthMatches(q, cs);
    hide BandwidthOf, SharesOf;
  }
}
