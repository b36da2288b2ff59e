/** Sampling by inverse CDF: `EmpiricalRandomVariable` of ranvar.cc. */
module EmpiricalVariables {
  import opened Reals

  datatype Entry = Entry(val: real, cdf: real)

  /** `interpolation_`: off, continuous, or rounded up to an integer. */
  datatype Mode = Discrete | Continuous | Integral

  ghost predicate Sorted(t: seq<Entry>) {
    forall i, j | 0 <= i <= j < |t| :: t[i].cdf <= t[j].cdf && t[i].val <= t[j].val
  }

  /** The least index at or after `i` whose cdf reaches `u`, or the last index. */
  function Rank(t: seq<Entry>, u: real, i: nat): (r: nat)
    requires i < |t|
    ensures i <= r < |t|
    ensures forall k | i <= k < r :: t[k].cdf < u
    ensures r < |t| - 1 ==> u <= t[r].cdf
    decreases |t| - i
  {
    if i == |t| - 1 || u <= t[i].cdf then i else Rank(t, u, i + 1)
  }

  function Ceil(x: real): real {
    -((-x).Floor as real)
  }

  function Interpolate(x: real, x1: real, y1: real, x2: real, y2: real): real
    requires x1 < x2
  {
    y1 + (x - x1) * (y2 - y1) / (x2 - x1)
  }

  /** The value sampled for a draw `u`. */
  function Sample(t: seq<Entry>, mode: Mode, u: real): real
    requires 0 < |t|
  {
    var mid := Rank(t, u, 0);
    if mid > 0 && !mode.Discrete? && u < t[mid].cdf then
      var v := Interpolate(u, t[mid - 1].cdf, t[mid - 1].val, t[mid].cdf, t[mid].val);
      if mode.Integral? then Ceil(v) else v
    else t[mid].val
  }

  lemma RankIs(t: seq<Entry>, u: real, r: nat)
    requires r < |t| && Sorted(t)
    requires forall k | 0 <= k < r :: t[k].cdf < u
    requires u <= t[r].cdf || r == |t| - 1
    ensures Rank(t, u, 0) == r
  {
    assert !(Rank(t, u, 0) < r) && !(r < Rank(t, u, 0));
  }

  class EmpiricalRandomVariable {
    const interpolation: Mode
    var table: array?<Entry>
    var maxEntry: nat
    var numEntry: nat

    ghost predicate Valid()
      reads this, table
    {
      && 0 < maxEntry
      && (table != null ==> table.Length == maxEntry)
      && (0 < numEntry ==> table != null && numEntry <= maxEntry)
    }

    ghost function Entries(): seq<Entry>
      requires Valid()
      reads this, table
    {
      if numEntry == 0 then [] else table[..numEntry]
    }

    constructor (interpolation: Mode)
      ensures Valid() && Entries() == [] && this.interpolation == interpolation
    {
      this.interpolation := interpolation;
      table, maxEntry, numEntry := null, 32, 0;
    }

    /** Loads a table, one entry to a line, doubling the array when it is full. */
    method LoadCDF(lines: seq<Entry>)
      requires Valid()
      modifies this, table
      ensures Valid() && Entries() == lines
      ensures fresh(table) || table == old(table)
    {
      if table == null {
        table := new Entry[maxEntry](_ => Entry(0.0, 0.0));
      }
      numEntry := 0;
      while numEntry < |lines|
        invariant Valid() && table != null && numEntry <= |lines|
        invariant fresh(table) || table == old(table)
        invariant table[..numEntry] == lines[..numEntry]
      {
        if numEntry >= maxEntry {
          Grow();
        }
        table[numEntry] := lines[numEntry];
        numEntry := numEntry + 1;
      }
    }

    method Grow()
      requires Valid() && table != null && numEntry == maxEntry
      modifies this`table, this`maxEntry
      ensures Valid() && fresh(table) && table != null && maxEntry == 2 * old(maxEntry)
      ensures table[..numEntry] == old(table[..numEntry])
    {
      maxEntry := maxEntry * 2;
      var e := new Entry[maxEntry](_ => Entry(0.0, 0.0));
      var i := numEntry - 1;
      while i >= 0
        invariant -1 <= i < numEntry
        invariant forall k | i < k < numEntry :: e[k] == table[k]
        modifies e
      {
        e[i] := table[i];
        i := i - 1;
      }
      table := e;
    }

    /** Binary search. With a single entry a draw above it has no index. */
    method Lookup(u: real) returns (index: nat)
      requires Valid() && 0 < numEntry && Sorted(Entries())
      requires numEntry == 1 ==> u <= table[0].cdf
      ensures index < numEntry && index == Rank(Entries(), u, 0)
    {
      ghost var t := Entries();
      if u <= table[0].cdf {
        RankIs(t, u, 0);
        return 0;
      }
      var lo, hi := 1, numEntry - 1;
      while lo < hi
        invariant 1 <= lo <= hi <= numEntry - 1
        invariant forall k | 0 <= k < lo :: t[k].cdf < u
        invariant u <= t[hi].cdf || hi == numEntry - 1
      {
        var mid := (lo + hi) / 2;
        if u > table[mid].cdf {
          assert forall k | 0 <= k <= mid :: t[k].cdf <= t[mid].cdf;
          lo := mid + 1;
        } else {
          hi := mid;
        }
      }
      index := lo;
      RankIs(t, u, index);
    }

    /** One sample, for the uniform draw `u`. */
    method Value(u: real) returns (v: real)
      requires Valid() && Sorted(Entries())
      requires numEntry == 1 ==> u <= table[0].cdf
      ensures v == if numEntry == 0 then 0.0 else Sample(Entries(), interpolation, u)
    {
      if numEntry <= 0 {
        return 0.0;
      }
      ghost var t := Entries();
      var mid := Lookup(u);
      assert mid > 0 ==> t[mid - 1].cdf < u;
      if mid > 0 && !interpolation.Discrete? && u < table[mid].cdf {
        v := Interpolate(u, table[mid - 1].cdf, table[mid - 1].val, table[mid].cdf, table[mid].val);
        if interpolation.Integral? {
          v := Ceil(v);
        }
      } else {
        v := table[mid].val;
      }
    }
  }

  // The sampled value as a function of the draw

  /** Interpolation stays between its end points and follows the draw. */
  lemma InterpolateBetween(x: real, x': real, x1: real, y1: real, x2: real, y2: real)
    requires x1 <= x <= x' <= x2 && x1 < x2 && y1 <= y2
    ensures y1 <= Interpolate(x, x1, y1, x2, y2) <= Interpolate(x', x1, y1, x2, y2) <= y2
  {
    var d, h := x2 - x1, y2 - y1;
    RealMonotone(0.0, x - x1, h);
    RealMonotone(x - x1, x' - x1, h);
    RealMonotone(x' - x1, d, h);
    QuotientMonotone(0.0, (x - x1) * h, d);
    QuotientMonotone((x - x1) * h, (x' - x1) * h, d);
    QuotientMonotone((x' - x1) * h, d * h, d);
    Quotient(0.0, 0.0, d);
    Quotient(d * h, h, d);
  }

  /** Interpolation is linear, through both end points. */
  lemma InterpolateIsLinear(x: real, x1: real, y1: real, x2: real, y2: real)
    requires x1 < x2
    ensures (Interpolate(x, x1, y1, x2, y2) - y1) * (x2 - x1) == (x - x1) * (y2 - y1)
    ensures Interpolate(x1, x1, y1, x2, y2) == y1 && Interpolate(x2, x1, y1, x2, y2) == y2
  {
    var d, h := x2 - x1, y2 - y1;
    assert (x - x1) * h / d * d == (x - x1) * h;
    Quotient(0.0, 0.0, d);
    Quotient(d * h, h, d);
  }

  lemma RankMonotone(t: seq<Entry>, u: real, u': real)
    requires 0 < |t| && Sorted(t) && u <= u'
    ensures Rank(t, u, 0) <= Rank(t, u', 0)
  {
    assert !(Rank(t, u', 0) < Rank(t, u, 0));
  }

  lemma CeilBounds(x: real, y: real)
    requires x <= y
    ensures x <= Ceil(x) <= Ceil(y) && Ceil(x) < x + 1.0
    ensures Whole(y) ==> Ceil(x) <= y
  {
    FloorAtLeast((-y).Floor, -x);
    if Whole(y) {
      FloorAtLeast(-y.Floor, -x);
    }
  }

  predicate Whole(x: real) {
    x == x.Floor as real
  }

  /** Every value reached by interpolation is a whole number. */
  ghost predicate WholeSteps(t: seq<Entry>) {
    forall i | 1 <= i < |t| && t[i - 1].cdf < t[i].cdf :: Whole(t[i].val)
  }

  ghost predicate Increasing(t: seq<Entry>, mode: Mode)
    requires 0 < |t|
  {
    forall u, u' | u <= u' :: Sample(t, mode, u) <= Sample(t, mode, u')
  }

  /** A sample lies between the values of its entry and of the one before. */
  lemma SampleBounds(t: seq<Entry>, mode: Mode, u: real)
    requires 0 < |t| && Sorted(t) && (mode.Integral? ==> WholeSteps(t))
    ensures var r := Rank(t, u, 0);
            Sample(t, mode, u) <= t[r].val && (r > 0 ==> t[r - 1].val <= Sample(t, mode, u))
  {
    var r := Rank(t, u, 0);
    if r > 0 && !mode.Discrete? && u < t[r].cdf {
      var a, b := t[r - 1], t[r];
      InterpolateBetween(u, u, a.cdf, a.val, b.cdf, b.val);
      hide Interpolate;
      CeilBounds(Interpolate(u, a.cdf, a.val, b.cdf, b.val), b.val);
    }
  }

  lemma SampleFollowsDraw(t: seq<Entry>, mode: Mode, u: real, u': real)
    requires 0 < |t| && Sorted(t) && u <= u' && (mode.Integral? ==> WholeSteps(t))
    ensures Sample(t, mode, u) <= Sample(t, mode, u')
  {
    RankMonotone(t, u, u');
    SampleBounds(t, mode, u);
    SampleBounds(t, mode, u');
    var r := Rank(t, u, 0);
    if r == Rank(t, u', 0) && r > 0 && !mode.Discrete? && u' < t[r].cdf {
      var a, b := t[r - 1], t[r];
      InterpolateBetween(u, u', a.cdf, a.val, b.cdf, b.val);
      hide Interpolate;
      CeilBounds(Interpolate(u, a.cdf, a.val, b.cdf, b.val), Interpolate(u', a.cdf, a.val, b.cdf, b.val));
    }
  }

  /** The draw whose interpolation is the value `v`. */
  lemma DrawFor(v: real, x1: real, y1: real, x2: real, y2: real) returns (u: real)
    requires x1 < x2 && y1 < v < y2
    ensures x1 < u < x2 && Interpolate(u, x1, y1, x2, y2) == v
  {
    var d, h := x2 - x1, y2 - y1;
    var k := (v - y1) / h;
    StrictQuotient(v - y1, h);
    StrictPart(k, d);
    var step := k * d;
    u := x1 + step;
    Reorder(k, d, h);
    assert (u - x1) * h == step * h == (k * h) * d == (v - y1) * d;
    Quotient((u - x1) * h, v - y1, d);
  }

  lemma Reorder(k: real, d: real, h: real)
    ensures (k * d) * h == (k * h) * d
  {}

  lemma CeilAboveFloor(v: real, y: real)
    requires y.Floor as real < v
    ensures y < Ceil(v)
  {
    var f, n := (-v).Floor, y.Floor;
    assert f as real <= -v < -n as real;
    assert f < -n && y < n as real + 1.0;
  }

  /** Rounding up can overshoot an entry whose value is not whole. */
  lemma NotWholeOvershoots(t: seq<Entry>, i: nat) returns (u: real)
    requires Sorted(t) && 1 <= i < |t| && t[i - 1].cdf < t[i].cdf && !Whole(t[i].val)
    ensures u < t[i].cdf && Sample(t, Integral, u) > Sample(t, Integral, t[i].cdf)
  {
    hide Interpolate, Ceil;
    var a, b := t[i - 1], t[i];
    var v;
    if a.val < b.val {
      v := Above(a.val, b.val);
      u := DrawFor(v, a.cdf, a.val, b.cdf, b.val);
    } else {
      u, v := (a.cdf + b.cdf) / 2.0, b.val;
      InterpolateBetween(u, u, a.cdf, a.val, b.cdf, b.val);
    }
    CeilAboveFloor(v, b.val);
    assert forall k | 0 <= k < i :: t[k].cdf <= a.cdf;
    RankIs(t, u, i);
    RankIs(t, b.cdf, i);
  }

  /** A value between `x` and `y` that is above the floor of `y`. */
  function Above(x: real, y: real): (v: real)
    requires x < y && !Whole(y)
    ensures x < v < y && y.Floor as real < v
  {
    var low := if x < y.Floor as real then y.Floor as real else x;
    (low + y) / 2.0
  }

  /** The sampled value never falls as the draw grows, exactly when samples are not
      rounded up or every value reached by interpolation is whole. */
  lemma SampleIncreasingIff(t: seq<Entry>, mode: Mode)
    requires 0 < |t| && Sorted(t)
    ensures Increasing(t, mode) <==> (mode.Integral? ==> WholeSteps(t))
  {
    if mode.Integral? ==> WholeSteps(t) {
      forall u, u' | u <= u'
        ensures Sample(t, mode, u) <= Sample(t, mode, u')
      {
        SampleFollowsDraw(t, mode, u, u');
      }
    } else {
      var i :| 1 <= i < |t| && t[i - 1].cdf < t[i].cdf && !Whole(t[i].val);
      var u := NotWholeOvershoots(t, i);
    }
  }
}
