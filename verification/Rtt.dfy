/** Round-trip estimation of tcp.cc in fixed point: `t_srtt_` carries 3 fraction
    bits, `t_rttvar_` 2, and differences pass through a 16-bit short. */
module RttEstimation {
  import opened Arith

  /** Assignment to a 16-bit signed short. */
  function ToShort(x: int): (r: int)
    ensures -32768 <= r <= 32767
    ensures -32768 <= x <= 32767 ==> r == x
  {
    (x + 32768) % 65536 - 32768
  }

  /** srtt is 8 times the smoothed time in ticks, rttvar 4 times its deviation, rto
      the timeout in ticks. */
  datatype Estimate = Estimate(srtt: int, rttvar: int, rto: int)

  datatype Event = Measured(ticks: int) | BackedOff(backoff: int)

  /** How far a measurement is from the average, as a short. */
  function Delta(srtt: int, ticks: int): int {
    ToShort(ticks - srtt / 8)
  }

  function NextAverage(srtt: int, delta: int): int {
    if srtt + delta <= 0 then 1 else srtt + delta
  }

  function NextDeviation(rttvar: int, delta: int): int {
    var deviation := if delta < 0 then ToShort(-delta) else delta;
    var step := ToShort(deviation - rttvar / 4);
    if rttvar + step <= 0 then 1 else rttvar + step
  }

  function Timeout(srtt: int, rttvar: int): int {
    (rttvar * 8 + srtt) / 8
  }

  /** `rtt_update` for a measurement of `ticks`, at least one. */
  function Update(e: Estimate, ticks: int): Estimate {
    var m := if ticks < 1 then 1 else ticks;
    var srtt := if e.srtt != 0 then NextAverage(e.srtt, Delta(e.srtt, m)) else m * 8;
    var rttvar := if e.srtt != 0 then NextDeviation(e.rttvar, Delta(e.srtt, m)) else m * 2;
    Estimate(srtt, rttvar, Timeout(srtt, rttvar))
  }

  /** The estimate after a timeout that leaves the multiplier at `backoff`: far
      enough back, the average moves into the deviation. */
  function Clobber(e: Estimate, backoff: int): Estimate {
    if backoff > 8 then e.(rttvar := e.rttvar + e.srtt / 8, srtt := 0) else e
  }

  /** The timeout multiplier after one more timeout; `below` says whether the timeout
      is still under its maximum (RFC 2988). */
  function NextBackoff(backoff: int, below: bool): int {
    if backoff < 64 || below then 2 * backoff else backoff
  }

  function Next(e: Estimate, ev: Event): Estimate {
    match ev
    case Measured(ticks) => Update(e, ticks)
    case BackedOff(backoff) => Clobber(e, backoff)
  }

  function Run(e: Estimate, evs: seq<Event>): Estimate {
    if evs == [] then e else Next(Run(e, evs[..|evs| - 1]), evs[|evs| - 1])
  }

  /** The most the deviation can reach with measurements between a and b. */
  function Spread(a: int, b: int): int {
    Max(4 * (b - a), 2 * b)
  }

  /** Whenever there is an average it lies in [a, b], the deviation is at most
      `Spread`, and the timeout was computed from such a pair. */
  predicate Inside(e: Estimate, a: int, b: int) {
    && 0 <= e.srtt && 0 <= e.rttvar
    && (e.srtt != 0 ==> a <= e.srtt / 8 <= b && 1 <= e.rttvar <= Spread(a, b))
    && (e.rto != 0 ==> a + 1 <= e.rto <= b + Spread(a, b))
  }

  /** The largest deviation in ticks, less the whole wraps of a short in it. */
  function Excess(b: int): int {
    b / 2 % 65536
  }

  function Base(b: int): int {
    b / 2 - Excess(b)
  }

  /** Bounds under which no difference wraps, or only deviations so large that every
      one of them wraps back to the right side. Up to b == 65537 the first clause
      says it all. */
  predicate Tame(a: int, b: int) {
    b - a <= 32767 && Excess(b) <= 32768 && (Base(b) == 0 || b - a <= Excess(b))
  }

  lemma TameBelow(a: int, b: int)
    requires 1 <= a <= b <= 65537
    ensures Tame(a, b) <==> b - a <= 32767
  {}

  /** Adding whole wraps does not change a short. */
  lemma ShortShift(x: int, q: int)
    ensures ToShort(x + 65536 * q) == ToShort(x)
  {}

  lemma BaseIsWraps(b: int) returns (q: nat)
    requires 0 <= b
    ensures Base(b) == 65536 * q
  {
    q := b / 2 / 65536;
  }

  /** `Inside`, and the deviation has not fallen below the wraps. */
  predicate Steady(e: Estimate, a: int, b: int) {
    Inside(e, a, b) && (e.srtt != 0 ==> 4 * Base(b) <= e.rttvar || 2 * a <= e.rttvar)
  }

  function AbsDiff(x: int, y: int): nat {
    if x < y then y - x else x - y
  }

  /** What the deviation moves by, once the wraps have cancelled. */
  lemma DeviationStep(rttvar: int, d: nat, a: int, b: int)
    requires 1 <= a <= b && Tame(a, b) && 1 <= rttvar <= Spread(a, b) && d <= b - a
    requires 4 * Base(b) <= rttvar || 2 * a <= rttvar
    ensures ToShort(d - rttvar / 4) == d - (rttvar / 4 - Base(b))
  {
    var q := BaseIsWraps(b);
    ShortShift(d - rttvar / 4, q);
  }

  lemma DeviationBounds(rttvar: int, d: nat, a: int, b: int)
    requires 1 <= a <= b && Tame(a, b) && 1 <= rttvar <= Spread(a, b) && d <= b - a
    requires 4 * Base(b) <= rttvar || 2 * a <= rttvar
    ensures var rttvar' := rttvar + d - (rttvar / 4 - Base(b));
            rttvar' <= Spread(a, b) && (4 * Base(b) <= rttvar' || 2 * a <= rttvar')
  {
    var v, s := rttvar / 4, rttvar / 4 - Base(b);
    assert 4 * v <= rttvar <= 4 * v + 3;
    assert 4 * Base(b) + 4 * Excess(b) <= 2 * b;
  }

  /** The two halves of an update: the average, and the deviation. */
  lemma AverageStep(e: Estimate, ticks: int, a: int, b: int)
    requires 1 <= a <= b && b - a <= 32767 && Inside(e, a, b) && e.srtt != 0 && a <= ticks <= b
    ensures var delta := ToShort(ticks - e.srtt / 8);
            && delta == ticks - e.srtt / 8 && Update(e, ticks).srtt == e.srtt + delta
            && a <= Update(e, ticks).srtt / 8 <= b
            && (if delta < 0 then ToShort(-delta) else delta) == AbsDiff(ticks, e.srtt / 8) <= b - a
  {}

  lemma DeviationStaysInside(e: Estimate, ticks: int, a: int, b: int)
    requires 1 <= a <= b && Tame(a, b) && Steady(e, a, b) && e.srtt != 0 && a <= ticks <= b
    ensures var rttvar := NextDeviation(e.rttvar, Delta(e.srtt, ticks));
            1 <= rttvar <= Spread(a, b) && (4 * Base(b) <= rttvar || 2 * a <= rttvar)
  {
    var d := AbsDiff(ticks, e.srtt / 8);
    AverageStep(e, ticks, a, b);
    DeviationStep(e.rttvar, d, a, b);
    DeviationBounds(e.rttvar, d, a, b);
    hide ToShort, Base, Tame;
  }

  lemma UpdateStaysInside(e: Estimate, ticks: int, a: int, b: int)
    requires 1 <= a <= b && Tame(a, b) && Steady(e, a, b) && a <= ticks <= b
    ensures Steady(Update(e, ticks), a, b) && Update(e, ticks).srtt != 0
    ensures var e' := Update(e, ticks); e'.rto == e'.rttvar + e'.srtt / 8
  {
    if e.srtt != 0 {
      AverageStep(e, ticks, a, b);
      DeviationStaysInside(e, ticks, a, b);
      hide ToShort, Tame, NextDeviation;
    }
  }

  /** Every measurement is between a and b ticks. */
  predicate Samples(evs: seq<Event>, a: int, b: int) {
    forall i | 0 <= i < |evs| && evs[i].Measured? :: a <= evs[i].ticks <= b
  }

  /** For any mix of measurements between a and b ticks and backed-off timeouts, the
      smoothed time stays between a and b whenever there is one, and every timeout
      computed is between a + 1 and b + Spread(a, b) ticks. */
  lemma {:induction false} Envelope(e: Estimate, evs: seq<Event>, a: int, b: int)
    requires 1 <= a <= b && Tame(a, b) && Steady(e, a, b) && Samples(evs, a, b)
    ensures Steady(Run(e, evs), a, b)
  {
    if evs != [] {
      var init, ev := evs[..|evs| - 1], evs[|evs| - 1];
      Envelope(e, init, a, b);
      if ev.Measured? {
        UpdateStaysInside(Run(e, init), ev.ticks, a, b);
      }
    }
  }

  /** Before any measurement there is no average. The deviation starts at a
      configured value. */
  function Unknown(rttvar: int): Estimate {
    Estimate(0, rttvar, 0)
  }

  lemma RunTwo(e: Estimate, x: int, y: int)
    ensures Run(e, [Measured(x), Measured(y)]) == Update(Update(e, x), y)
  {
    assert [Measured(x), Measured(y)][..1] == [Measured(x)] && [Measured(x)][..0] == [];
    assert Run(e, [Measured(x)]) == Next(e, Measured(x));
  }

  /** The first measurement forgets where the deviation started. */
  lemma FirstMeasurement(rttvar: int, ticks: int)
    ensures Update(Unknown(rttvar), ticks) == Update(Unknown(0), ticks)
  {}

  /** A difference beyond a short wraps to the least one and drags the average below
      all measurements. */
  lemma AverageBreaksOut(a: int, b: int)
    requires 1 <= a && 32767 < b - a
    ensures !Inside(Update(Update(Unknown(0), a), a + 32768), a, b)
  {
    assert Delta(a * 8, a + 32768) == -32768;
  }

  /** The deviation starts at its largest and wraps upwards. */
  lemma DeviationBreaksOut(a: int, b: int) returns (y: int)
    requires 1 <= a <= b && b - a <= 32767 && !Tame(a, b)
    ensures a <= y <= b && !Inside(Update(Update(Unknown(0), b), y), a, b)
  {
    var q := BaseIsWraps(b);
    y := if Excess(b) > 32768 then b else b - (Excess(b) + 1);
    ShortShift(b - y - b / 2, q);
    assert ToShort(b - y - b / 2) == ToShort(b - y - Excess(b)) > 0;
    WrapsUp(b, y);
    hide ToShort, Excess, Base, Update;
  }

  lemma WrapsUp(b: int, y: int)
    requires 65538 <= b && 0 <= b - y <= 32767 && ToShort(b - y - b / 2) > 0
    ensures Update(Update(Unknown(0), b), y).rttvar == 2 * b + ToShort(b - y - b / 2)
    ensures Update(Update(Unknown(0), b), y).srtt > 0
  {
    assert Update(Unknown(0), b) == Estimate(8 * b, 2 * b, Timeout(8 * b, 2 * b));
    assert Delta(8 * b, y) == y - b;
    hide ToShort;
  }

  /** Outside those bounds two measurements leave the envelope. */
  lemma BreaksOut(a: int, b: int) returns (x: int, y: int)
    requires 1 <= a <= b && !Tame(a, b)
    ensures a <= x <= b && a <= y <= b && !Inside(Update(Update(Unknown(0), x), y), a, b)
  {
    hide Tame, Inside;
    if 32767 < b - a {
      AverageBreaksOut(a, b);
      x, y := a, a + 32768;
    } else {
      x := b;
      y := DeviationBreaksOut(a, b);
    }
  }

  /** Exactly when the envelope holds: for every a and b, over every run, wherever the
      deviation starts. */
  lemma EnvelopeIff(a: int, b: int, rttvar: nat)
    requires 1 <= a <= b
    ensures Tame(a, b) <==> forall evs | Samples(evs, a, b) :: Inside(Run(Unknown(rttvar), evs), a, b)
  {
    if Tame(a, b) {
      forall evs | Samples(evs, a, b)
        ensures Inside(Run(Unknown(rttvar), evs), a, b)
      {
        Envelope(Unknown(rttvar), evs, a, b);
      }
    } else {
      var x, y := BreaksOut(a, b);
      FirstMeasurement(rttvar, x);
      RunTwo(Unknown(rttvar), x, y);
      assert Samples([Measured(x), Measured(y)], a, b);
    }
  }

  /** An illustration: one measurement 40000 ticks above the average wraps and drives
      the average to its floor. */
  lemma WideDifferencesWrap()
    ensures var e := Update(Estimate(8, 2, 3), 40001);
            Inside(Estimate(8, 2, 3), 1, 40001) && e.srtt == 1 && !Inside(e, 1, 40001)
  {
    assert ToShort(40001 - 8 / 8) == -25536;
  }

  function Seconds(ticks: int, tick: real): real {
    ticks as real * tick
  }

  class RttEstimator {
    const tick: real
    var tRtt: int
    var tSrtt: int
    var tRttvar: int
    var tRtxcur: real
    var tBackoff: int

    ghost var rto: int

    /** Once a timeout has been computed the field holds it in seconds. */
    ghost predicate Valid()
      reads this
    {
      rto != 0 ==> tRtxcur == Seconds(rto, tick)
    }

    ghost function Now(): Estimate
      reads this
    {
      Estimate(tSrtt, tRttvar, rto)
    }

    /** `rtt_init`, with the initial values in ticks (the timeout in seconds). */
    constructor (tick: real, srttInit: int, rttvarInit: int, rtxcurInit: real)
      ensures Valid() && Now() == Estimate(srttInit * 8, rttvarInit * 4, 0) && tBackoff == 1
      ensures tRtxcur == rtxcurInit
    {
      this.tick := tick;
      tRtt, tSrtt, tRttvar, tRtxcur, tBackoff, rto := 0, srttInit * 8, rttvarInit * 4, rtxcurInit, 1, 0;
    }

    method RttUpdate(ticks: int)
      requires Valid()
      modifies this
      ensures Valid() && Now() == Update(old(Now()), ticks) && tBackoff == old(tBackoff)
      ensures tRtxcur == rto as real * tick
      ensures tRtt == if ticks < 1 then 1 else ticks
    {
      hide Delta, NextAverage, NextDeviation;
      tRtt := ticks;
      if tRtt < 1 {
        tRtt := 1;
      }
      if tSrtt != 0 {
        var delta := MoveAverage();
        MoveDeviation(delta);
      } else {
        tSrtt := tRtt * 8;
        tRttvar := tRtt * 2;
      }
      var ticksToWait := (tRttvar * 8 + tSrtt) / 8;
      rto := ticksToWait;
      tRtxcur := Seconds(ticksToWait, tick);
    }

    method MoveAverage() returns (delta: int)
      modifies this`tSrtt
      ensures delta == Delta(old(tSrtt), tRtt) && tSrtt == NextAverage(old(tSrtt), delta)
    {
      hide ToShort;
      delta := ToShort(tRtt - tSrtt / 8);
      tSrtt := tSrtt + delta;
      if tSrtt <= 0 {
        tSrtt := 1;
      }
    }

    method MoveDeviation(difference: int)
      modifies this`tRttvar
      ensures tRttvar == NextDeviation(old(tRttvar), difference)
    {
      hide ToShort;
      var delta := difference;
      if delta < 0 {
        delta := ToShort(-delta);
      }
      delta := ToShort(delta - tRttvar / 4);
      tRttvar := tRttvar + delta;
      if tRttvar <= 0 {
        tRttvar := 1;
      }
    }

    method RttBackoff(below: bool)
      requires Valid()
      modifies this
      ensures Valid() && Now() == Clobber(old(Now()), tBackoff)
      ensures tBackoff == NextBackoff(old(tBackoff), below)
    {
      if tBackoff < 64 || below {
        tBackoff := 2 * tBackoff;
      }
      if tBackoff > 8 {
        tRttvar := tRttvar + tSrtt / 8;
        tSrtt := 0;
      }
    }
  }
}
