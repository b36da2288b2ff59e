/** The arithmetic of RED (red.cc): the average, the ramp, and the spreading of
    early drops, over real numbers. */
module RedArithmetic {
  import opened Reals

  /** The average after `m` packet times, of which all but the last were idle. */
  function Average(nqueued: int, m: nat, ave: real, qW: real): real {
    Power(1.0 - qW, if m == 0 then 1 else m) * ave + qW * nqueued as real
  }

  /** `calculate_p_new`. */
  function CalculateP(vAve: real, thMax: real, gentle: bool, vA: real, vB: real, vC: real, vD: real, maxP: real): real {
    var p := if gentle && vAve >= thMax then vC * vAve + vD
             else if !gentle && vAve >= thMax then 1.0
             else (vA * vAve + vB) * maxP;
    if p > 1.0 then 1.0 else p
  }

  /** `modify_p` with the queue measured in packets. */
  function ModifyP(p: real, count: int, wait: bool): real {
    var spread := if wait then
                    if count as real * p < 1.0 then 0.0
                    else if count as real * p < 2.0 then p / (2.0 - count as real * p)
                    else 1.0
                  else
                    if count as real * p < 1.0 then p / (1.0 - count as real * p)
                    else 1.0;
    if spread > 1.0 then 1.0 else spread
  }

  lemma {:induction false} PowerOfZero(n: nat)
    ensures Power(0.0, n + 1) == 0.0
  {}

  /** With a weight of one the average is the instantaneous queue. */
  lemma WeightOneIsInstantaneous(nqueued: int, m: nat, ave: real)
    ensures Average(nqueued, m, ave, 1.0) == nqueued as real
  {
    PowerOfZero(if m == 0 then 0 else m - 1);
    assert 1.0 - 1.0 == 0.0;
  }

  /** One packet moves the average the part `qW` of the way to the queue length. */
  lemma AverageMoves(nqueued: int, ave: real, qW: real)
    ensures Average(nqueued, 1, ave, qW) - ave == qW * (nqueued as real - ave)
    ensures Average(nqueued, 0, ave, qW) == Average(nqueued, 1, ave, qW)
  {
    assert Power(1.0 - qW, 1) == 1.0 - qW;
  }

  /** Idle packet times count as arrivals at an empty queue. */
  lemma IdleIsEmpty(nqueued: int, m: nat, ave: real, qW: real)
    requires 1 <= m
    ensures Average(nqueued, m + 1, ave, qW) == Average(nqueued, 1, Average(0, m, ave, qW), qW)
  {
    var x := 1.0 - qW;
    assert Power(x, 1) == x;
    PowerStep(x, m + 1, ave);
    assert Average(0, m, ave, qW) == Power(x, m) * ave;
  }

  // Spreading early drops

  /** The probability that none of the packets with counts from .. to - 1 is
      dropped. */
  function Survival(p: real, from: nat, to: nat, wait: bool): real
    decreases to
  {
    if to <= from then 1.0
    else Both(Survival(p, from, to - 1, wait), 1.0 - ModifyP(p, to - 1, wait))
  }

  /** The probability of two independent events. */
  function Both(x: real, y: real): real {
    x * y
  }

  lemma TelescopeStep(s: real, f: real, a: real, b: real, c: real)
    requires a != 0.0 && b != 0.0 && s == b / a && f == c / b
    ensures Both(s, f) == c / a
  {
    CancelFactor(a, b, c);
  }

  function Accrued(p: real, k: nat): real {
    k as real * p
  }

  /** What is left of the limit at count `k`. */
  function Room(limit: real, p: real, k: nat): real {
    limit - Accrued(p, k)
  }

  lemma RoomShrinks(limit: real, p: real, i: nat, j: nat)
    requires 0.0 < p && i < j
    ensures Room(limit, p, j) <= Room(limit, p, i) - p
    ensures Room(limit, p, i + 1) == Room(limit, p, i) - p
  {
    assert (i + 1) as real == i as real + 1.0 <= j as real;
    assert (i as real + 1.0) * p == i as real * p + p;
    RealMonotone(i as real + 1.0, j as real, p);
  }

  function Limit(wait: bool): real {
    if wait then 2.0 else 1.0
  }

  /** The chance that count `c` passes without a drop. */
  lemma StepFactor(p: real, c: nat, wait: bool)
    requires 0.0 < p && 0.0 <= Room(Limit(wait), p, c + 1) && (wait ==> 1.0 <= Accrued(p, c))
    ensures 0.0 < Room(Limit(wait), p, c)
    ensures ModifyP(p, c, wait) == p / Room(Limit(wait), p, c)
    ensures 1.0 - ModifyP(p, c, wait) == Room(Limit(wait), p, c + 1) / Room(Limit(wait), p, c)
  {
    RoomShrinks(Limit(wait), p, c, c + 1);
    var room := Room(Limit(wait), p, c);
    assert p / room <= 1.0 by {
      assert p <= room;
    }
    Complement(p, room);
  }

  /** The product telescopes: the closed form behind uniform gaps between drops.
      With `wait` the same holds from the first count with count * p >= 1, with 2
      in place of 1. */
  lemma {:induction false} SurvivalTelescopes(p: real, a: nat, b: nat, wait: bool)
    requires 0.0 < p && a <= b && (wait ==> 1.0 <= Accrued(p, a))
    requires 0.0 <= Room(Limit(wait), p, b) && 0.0 < Room(Limit(wait), p, a)
    ensures Survival(p, a, b, wait) == Room(Limit(wait), p, b) / Room(Limit(wait), p, a)
  {
    var limit := Limit(wait);
    if a < b {
      var c := b - 1;
      CountGrows(p, a, c);
      RoomShrinks(limit, p, c, b);
      hide Room, ModifyP, Accrued, Both;
      SurvivalTelescopes(p, a, c, wait);
      StepFactor(p, c, wait);
      TelescopeStep(Survival(p, a, c, wait), 1.0 - ModifyP(p, c, wait),
                    Room(limit, p, a), Room(limit, p, c), Room(limit, p, b));
    } else {
      Quotient(Room(limit, p, b), 1.0, Room(limit, p, a));
    }
  }

  lemma CountGrows(p: real, a: nat, c: nat)
    requires 0.0 < p && a <= c
    ensures Accrued(p, a) <= Accrued(p, c)
  {
    RealMonotone(a as real, c as real, p);
  }

  /** Every position is equally likely: after a drop, the chance that the next one
      falls on count `c` is the same for every c with (c + 1) * p <= 1. With `wait` it
      is the same for every c from the first count with count * p >= 1 up to
      (c + 1) * p <= 2. */
  lemma GapIsUniform(p: real, a: nat, c: nat, wait: bool)
    requires 0.0 < p && a <= c && (wait ==> 1.0 <= Accrued(p, a))
    requires 0.0 <= Room(Limit(wait), p, c + 1)
    ensures 0.0 < Room(Limit(wait), p, a)
    ensures Both(Survival(p, a, c, wait), ModifyP(p, c, wait)) == p / Room(Limit(wait), p, a)
  {
    var limit := Limit(wait);
    CountGrows(p, a, c);
    StepFactor(p, c, wait);
    hide Survival, ModifyP, Both;
    SurvivalTelescopes(p, a, c, wait);
    TelescopeStep(Survival(p, a, c, wait), ModifyP(p, c, wait), Room(limit, p, a), Room(limit, p, c), p);
  }

  /** Before that count nothing is dropped. */
  lemma NoDropWhileWaiting(p: real, c: nat)
    requires 0.0 < p && Accrued(p, c) < 1.0
    ensures ModifyP(p, c, true) == 0.0
  {}

  /** Once the next count would reach the limit the drop falls on this one. */
  lemma LastPosition(p: real, c: nat, wait: bool)
    requires 0.0 < p && Room(Limit(wait), p, c + 1) <= 0.0 && (wait ==> 1.0 <= Accrued(p, c))
    ensures ModifyP(p, c, wait) == 1.0
  {
    RoomShrinks(Limit(wait), p, c, c + 1);
    var room := Room(Limit(wait), p, c);
    if 0.0 < room {
      QuotientMonotone(room, p, room);
      Quotient(room, 1.0, room);
    }
  }

  /** A drop is certain once the count is large enough. */
  lemma DropIsCertain(p: real, c: nat, wait: bool)
    requires Limit(wait) <= Accrued(p, c)
    ensures ModifyP(p, c, wait) == 1.0
  {}

  // The ramp

  /** The slopes `reset` derives from the thresholds. */
  datatype Ramp = Ramp(thMin: real, thMax: real, maxP: real, gentle: bool) {
    function P(vAve: real): real
      requires thMin < thMax && thMax != 0.0
    {
      var d := thMax - thMin;
      CalculateP(vAve, thMax, gentle, 1.0 / d, -thMin / d, (1.0 - maxP) / thMax, 2.0 * maxP - 1.0, maxP)
    }
  }

  lemma RampBelow(r: Ramp, vAve: real)
    requires 0.0 < r.thMin < r.thMax && 0.0 < r.maxP <= 1.0 && vAve < r.thMax
    ensures r.P(vAve) == r.maxP * ((vAve - r.thMin) / (r.thMax - r.thMin))
    ensures r.P(vAve) < r.maxP
  {
    var d := r.thMax - r.thMin;
    var x := (vAve - r.thMin) / d;
    LinearForm(vAve, r.thMin, d);
    BelowWhole(vAve - r.thMin, d, r.maxP);
    BelowThreshold(r, vAve, 1.0 / d, -r.thMin / d, x);
  }

  lemma LinearForm(v: real, t: real, d: real)
    requires d != 0.0
    ensures 1.0 / d * v + -t / d == (v - t) / d
  {
    Quotient(v - t, 1.0 / d * v + -t / d, d);
  }

  lemma BelowThreshold(r: Ramp, v: real, vA: real, vB: real, x: real)
    requires v < r.thMax && x == vA * v + vB && r.maxP * x < r.maxP <= 1.0
    ensures forall vC, vD :: CalculateP(v, r.thMax, r.gentle, vA, vB, vC, vD, r.maxP) == r.maxP * x
  {
    var y := vA * v + vB;
    assert y * r.maxP == r.maxP * x;
  }

  lemma BelowWhole(part: real, whole: real, p: real)
    requires part < whole && 0.0 < whole && 0.0 < p
    ensures p * (part / whole) < p
  {
    var x := part / whole;
    assert x * whole == part;
    if 1.0 <= x {
      RealMonotone(1.0, x, whole);
    }
    assert 0.0 < (1.0 - x) * p;
    assert (1.0 - x) * p == p - p * x;
  }

  lemma RampGentle(r: Ramp, x: real, y: real)
    requires 0.0 < r.thMin < r.thMax && 0.0 < r.maxP <= 1.0 && r.thMax <= x <= y && r.gentle
    ensures r.maxP <= r.P(x) <= r.P(y)
    ensures r.P(r.thMax) == r.maxP && r.P(2.0 * r.thMax) == 1.0
  {
    var c := (1.0 - r.maxP) / r.thMax;
    assert 0.0 <= c && c * r.thMax == 1.0 - r.maxP;
    assert c * (2.0 * r.thMax) == 2.0 * (c * r.thMax);
    RealMonotone(r.thMax, x, c);
    RealMonotone(x, y, c);
  }

  /** Without gentle mode everything above the upper threshold is dropped. */
  lemma RampAbove(r: Ramp, x: real)
    requires 0.0 < r.thMin < r.thMax && r.thMax <= x && !r.gentle
    ensures r.P(x) == 1.0
  {}

  lemma RampLinear(r: Ramp, x: real, y: real)
    requires 0.0 < r.thMin < r.thMax && 0.0 < r.maxP <= 1.0 && x <= y < r.thMax
    ensures r.P(x) <= r.P(y)
  {
    var d := r.thMax - r.thMin;
    RampBelow(r, x);
    RampBelow(r, y);
    hide CalculateP;
    var u, v := (x - r.thMin) / d, (y - r.thMin) / d;
    QuotientMonotone(x - r.thMin, y - r.thMin, d);
    RealMonotone(u, v, r.maxP);
  }

  /** The early-drop probability never falls as the average grows, and in gentle
      mode it climbs from maxP at the upper threshold to 1 at twice that. */
  lemma RampMonotone(r: Ramp, x: real, y: real)
    requires 0.0 < r.thMin < r.thMax && 0.0 < r.maxP <= 1.0 && x <= y
    ensures r.P(x) <= r.P(y) <= 1.0
    ensures r.gentle ==> r.P(r.thMax) == r.maxP && r.P(2.0 * r.thMax) == 1.0
  {
    if r.gentle {
      RampGentle(r, r.thMax, if y < r.thMax then r.thMax else y);
    }
    if y < r.thMax {
      RampLinear(r, x, y);
    } else if x < r.thMax {
      RampBelow(r, x);
    } else if r.gentle {
      RampGentle(r, x, y);
    }
  }
}

/** The RED queue in packet mode, dropping from the tail, and its use as the marker
    of section 3.1 of RFC 8257. */
module RedQueues {
  import opened Reals
  import opened RedArithmetic

  datatype RedPacket = RedPacket(id: int, ect: bool, ce: bool)

  datatype RedConfig = RedConfig(qW: real, thMin: real, thMax: real, gentle: bool,
                                 vA: real, vB: real, vC: real, vD: real, curMaxP: real,
                                 useMarkP: bool, markP: real, setbit: bool, wait: bool,
                                 ns1Compat: bool, qlim: nat)

  /** The settings of script/size_aware.tcl: both thresholds equal, a weight of one,
      marking at any probability. */
  predicate Dctcp(c: RedConfig) {
    c.qW == 1.0 && c.thMin == c.thMax && !c.gentle && c.useMarkP && c.markP == 1.0 && c.setbit
  }

  /** An arrival that finds the queue at or above the threshold. A queue of one is
      never high, whatever the threshold. */
  predicate High(c: RedConfig, seen: nat) {
    seen as real >= c.thMin && seen > 1
  }

  /** One arrival: what it was, how many packets and what average it saw, the draw it
      met, and what became of it. */
  datatype Event = Event(ect: bool, seen: nat, ave: real, u: real, marked: bool, early: bool, dropped: bool)

  /** Whether arrival `i` continues an excursion above the threshold. */
  ghost predicate Continues(c: RedConfig, log: seq<Event>, i: nat)
    requires i < |log|
  {
    High(c, log[i].seen) && i > 0 && High(c, log[i - 1].seen)
  }

  /** The marker: exactly the ECN-capable arrivals above the threshold are marked,
      except the first of an excursion; a packet is dropped exactly when it finds
      the queue full or could not be marked. */
  ghost predicate MarksRight(c: RedConfig, log: seq<Event>) {
    forall i | 0 <= i < |log| ::
      && log[i].seen <= c.qlim
      && (log[i].marked <==> log[i].ect && Continues(c, log, i))
      && (log[i].dropped <==> log[i].seen == c.qlim || (!log[i].ect && Continues(c, log, i)))
  }

  function EarlyP(c: RedConfig, vAve: real): real {
    CalculateP(vAve, c.thMax, c.gentle, c.vA, c.vB, c.vC, c.vD, c.curMaxP)
  }

  datatype Verdict = Verdict(forced: bool, unforced: bool, marked: bool, above: bool, count: int)

  /** What an arrival that sees `qlen` packets meets, for the draw `u`. */
  function DropLogic(c: RedConfig, vAve: real, count: int, above: bool, ect: bool, qlen: nat, u: real): Verdict {
    if vAve < c.thMin || qlen <= 1 then Verdict(false, false, false, false, count)
    else if !c.useMarkP && vAve >= (if c.gentle then 2.0 * c.thMax else c.thMax) then
      Verdict(true, false, false, above, count)
    else if !above then Verdict(false, false, false, true, 1)
    else if u > ModifyP(EarlyP(c, vAve), count, c.wait) then Verdict(false, false, false, true, count)
    else
      var marked := c.setbit && ect && (!c.useMarkP || EarlyP(c, vAve) <= c.markP);
      Verdict(false, !marked, marked, true, 0)
  }

  /** Below the lower threshold nothing is dropped early or marked; without the marking
      mode everything is dropped from the upper one on (twice that in gentle mode). */
  lemma DropLogicEnds(c: RedConfig, vAve: real, count: int, above: bool, ect: bool, qlen: nat, u: real)
    ensures var v := DropLogic(c, vAve, count, above, ect, qlen, u);
            && (vAve < c.thMin || qlen <= 1 ==> !v.forced && !v.unforced && !v.marked && !v.above)
            && (c.thMin <= vAve && 1 < qlen && !c.useMarkP ==>
                  (v.forced <==> (if c.gentle then 2.0 * c.thMax else c.thMax) <= vAve))
            && (v.unforced || v.marked ==> above && c.thMin <= vAve && 1 < qlen)
  {}

  /** With the DCTCP settings no randomness is left. */
  lemma DropLogicBounds(c: RedConfig, vAve: real, count: int, above: bool, ect: bool, qlen: nat, u: real)
    requires 0 < count && u < 1.0
    ensures var v := DropLogic(c, vAve, count, above, ect, qlen, u);
            && 0 <= v.count
            && (Dctcp(c) && vAve == qlen as real ==>
                  && !v.forced && v.above == High(c, qlen)
                  && v.unforced == (!ect && High(c, qlen) && above)
                  && v.marked == (ect && High(c, qlen) && above))
  {
    CertainAtOne(count, c.wait);
  }

  /** What the DCTCP settings guarantee after the arrivals in `log`. */
  ghost predicate Marker(c: RedConfig, log: seq<Event>, above: bool) {
    Dctcp(c) ==> MarksRight(c, log) && (above <==> log != [] && High(c, log[|log| - 1].seen))
  }

  lemma MarkerStep(c: RedConfig, log: seq<Event>, above: bool, vAve: real, count: int, u: real, e: Event)
    requires Marker(c, log, above) && 0 < count && u < 1.0 && e.seen <= c.qlim
    requires c.qW == 1.0 ==> vAve == e.seen as real
    requires var v := DropLogic(c, vAve, count, above, e.ect, e.seen, u);
             e.marked == v.marked && e.dropped == (v.forced || v.unforced || e.seen == c.qlim)
    ensures Marker(c, log + [e], DropLogic(c, vAve, count, above, e.ect, e.seen, u).above)
  {
    DropLogicBounds(c, vAve, count, above, e.ect, e.seen, u);
    if Dctcp(c) {
      MarksAppend(c, log, e);
    }
  }

  // The count of arrivals between early drops

  /** What arrival `e` meets after those in `log`. */
  ghost function VerdictAfter(c: RedConfig, log: seq<Event>, e: Event): Verdict
    decreases |log|, 1
  {
    DropLogic(c, e.ave, CountAfter(c, log) + 1, AboveAfter(c, log), e.ect, e.seen, e.u)
  }

  /** The count the queue keeps, as left by the arrivals in `log`. */
  ghost function CountAfter(c: RedConfig, log: seq<Event>): int
    decreases |log|, 0
  {
    if log == [] then 0
    else
      var e, v := log[|log| - 1], VerdictAfter(c, log[..|log| - 1], log[|log| - 1]);
      if (v.forced || e.seen == c.qlim) && !c.ns1Compat then 0 else v.count
  }

  ghost function AboveAfter(c: RedConfig, log: seq<Event>): bool
    decreases |log|, 0
  {
    log != [] && VerdictAfter(c, log[..|log| - 1], log[|log| - 1]).above
  }

  /** The record of an arrival says what happened to it. */
  ghost predicate Records(c: RedConfig, log: seq<Event>, e: Event) {
    var v := VerdictAfter(c, log, e);
    e.marked == v.marked && e.early == v.unforced && e.dropped == (v.forced || v.unforced || e.seen == c.qlim)
  }

  /** The queue's own count and flag are those of its trace. */
  ghost predicate Traced(c: RedConfig, log: seq<Event>, count: int, above: bool) {
    && count == CountAfter(c, log) && above == AboveAfter(c, log)
    && forall i: nat | i < |log| :: Records(c, log[..i], log[i])
  }

  lemma TracedStep(c: RedConfig, log: seq<Event>, count: int, above: bool, e: Event)
    requires Traced(c, log, count, above)
    requires var v := DropLogic(c, e.ave, count + 1, above, e.ect, e.seen, e.u);
             e.marked == v.marked && e.early == v.unforced && e.dropped == (v.forced || v.unforced || e.seen == c.qlim)
    ensures var v := DropLogic(c, e.ave, count + 1, above, e.ect, e.seen, e.u);
            Traced(c, log + [e], if (v.forced || e.seen == c.qlim) && !c.ns1Compat then 0 else v.count, v.above)
  {
    var log' := log + [e];
    assert log'[..|log|] == log;
    forall i: nat | i < |log'|
      ensures Records(c, log'[..i], log'[i])
    {
      assert i < |log| ==> log'[..i] == log[..i];
    }
  }

  /** The arrival is in the range of early drops. */
  predicate InRange(c: RedConfig, e: Event) {
    && e.ave >= c.thMin && e.seen > 1
    && (c.useMarkP || e.ave < if c.gentle then 2.0 * c.thMax else c.thMax)
  }

  /** The arrival starts the count afresh. */
  predicate Resets(c: RedConfig, e: Event) {
    e.marked || e.early || (e.dropped && !c.ns1Compat)
  }

  /** From arrival `j` on all are in range, `j` starts the count afresh, and between
      it and `i` nothing is dropped or marked. */
  ghost predicate GapFrom(c: RedConfig, log: seq<Event>, j: nat, i: nat)
    requires j < i <= |log|
  {
    && Resets(c, log[j])
    && (forall k | j <= k < i :: InRange(c, log[k]))
    && (forall k | j < k < i :: !log[k].marked && !log[k].dropped)
  }

  /** The count at arrival `i` is its distance from the last drop or mark. */
  lemma {:induction false} CountIsGap(c: RedConfig, log: seq<Event>, count: int, above: bool, j: nat, i: nat)
    requires Traced(c, log, count, above) && j < i <= |log| && GapFrom(c, log, j, i)
    ensures CountAfter(c, log[..i]) == i - 1 - j && AboveAfter(c, log[..i])
  {
    var k := i - 1;
    assert log[..i][..k] == log[..k] && log[..i][k] == log[k];
    assert Records(c, log[..k], log[k]) && InRange(c, log[k]);
    if j < k {
      CountIsGap(c, log, count, above, j, k);
      hide ModifyP, EarlyP;
      assert !log[k].early;
    }
  }

  /** The law of the gaps: with a constant average, arrival `i` after a drop or mark at
      `j` is dropped early or marked exactly when its draw is at most the spread
      probability at count i - j. */
  lemma GapLaw(c: RedConfig, log: seq<Event>, count: int, above: bool, j: nat, i: nat, ave: real)
    requires Traced(c, log, count, above) && j < i < |log| && GapFrom(c, log, j, i) && InRange(c, log[i])
    requires log[i].ave == ave
    ensures log[i].marked || log[i].early <==> log[i].u <= ModifyP(EarlyP(c, ave), i - j, c.wait)
  {
    CountIsGap(c, log, count, above, j, i);
    assert Records(c, log[..i], log[i]);
    hide ModifyP, EarlyP;
  }

  class RedQueue {
    const c: RedConfig
    var q: seq<RedPacket>
    var vAve: real
    var vProb1: real
    var vProb: real
    var count: int
    var above: bool   // edv_.old
    var idle: bool

    ghost var log: seq<Event>

    ghost predicate Valid()
      reads this
    {
      |q| <= c.qlim && 0 <= count && Marker(c, log, above) && Traced(c, log, count, above)
    }

    constructor (c: RedConfig)
      ensures Valid() && this.c == c && q == [] && log == []
    {
      this.c := c;
      q, vAve, vProb1, vProb, count, above, idle := [], 0.0, 0.0, 0.0, 0, false, true;
      log := [];
    }

    /** The moving average, decayed over `m - 1` idle packet times. */
    static method Estimator(nqueued: nat, m: int, ave: real, qW: real) returns (newAve: real)
      requires 1 <= m
      ensures newAve == Average(nqueued, m, ave, qW)
    {
      newAve := ave;
      var k := m - 1;
      ghost var done := 0;
      while k >= 1
        invariant 0 <= k && done + k == m - 1 && newAve == Power(1.0 - qW, done) * ave
      {
        newAve := newAve * (1.0 - qW);
        k := k - 1;
        done := done + 1;
        PowerStep(1.0 - qW, done, ave);
      }
      PowerStep(1.0 - qW, m, ave);
      newAve := newAve * (1.0 - qW);
      newAve := newAve + qW * nqueued as real;
    }

    /** Whether the arriving packet is dropped early; it may be marked instead. */
    method DropEarly(pkt: RedPacket, u: real) returns (drop: bool, marked: bool)
      modifies this`vProb1, this`vProb, this`count
      ensures vProb1 == EarlyP(c, vAve) && vProb == ModifyP(vProb1, old(count), c.wait)
      ensures drop || marked <==> u <= vProb
      ensures marked <==> u <= vProb && c.setbit && pkt.ect && (!c.useMarkP || vProb1 <= c.markP)
      ensures count == if u <= vProb then 0 else old(count)
      ensures !(drop && marked)
    {
      drop, marked := false, false;
      vProb1 := CalculateP(vAve, c.thMax, c.gentle, c.vA, c.vB, c.vC, c.vD, c.curMaxP);
      vProb := ModifyP(vProb1, count, c.wait);
      if u <= vProb {
        count := 0;
        if c.setbit && pkt.ect && (!c.useMarkP || vProb1 <= c.markP) {
          marked := true;
        } else {
          drop := true;
        }
      }
    }

    /** The drop logic before the queue limit is looked at. */
    method Decide(pkt: RedPacket, qlen: nat, u: real) returns (forced: bool, unforced: bool, marked: bool)
      modifies this`vProb1, this`vProb, this`count, this`above
      ensures Verdict(forced, unforced, marked, above, count) ==
              DropLogic(c, vAve, old(count), old(above), pkt.ect, qlen, u)
    {
      forced, unforced, marked := false, false, false;
      if vAve >= c.thMin && qlen > 1 {
        if !c.useMarkP && ((!c.gentle && vAve >= c.thMax) || (c.gentle && vAve >= 2.0 * c.thMax)) {
          forced := true;
        } else if !above {
          count := 1;
          above := true;
        } else {
          unforced, marked := DropEarly(pkt, u);
        }
      } else {
        vProb := 0.0;
        above := false;
      }
    }

    /** Queues or drops the packet; a forced drop takes the tail, which is the
        packet itself. */
    method Admit(pkt: RedPacket, early: bool, unforced: bool, marked: bool) returns (dropped: bool)
      requires |q| <= c.qlim
      modifies this`q, this`count
      ensures dropped == (early || unforced || |old(q)| == c.qlim)
      ensures q == if dropped then old(q) else old(q) + [pkt.(ce := pkt.ce || marked)]
      ensures count == if (early || |old(q)| == c.qlim) && !c.ns1Compat then 0 else old(count)
    {
      var forced := early;
      if |q| >= c.qlim {
        forced := true;
      }
      if unforced && !forced {
        dropped := true;
      } else {
        q := q + [pkt.(ce := pkt.ce || marked)];
        dropped := false;
        if forced {
          q := q[..|q| - 1];
          dropped := true;
          if !c.ns1Compat {
            count := 0;
          }
        }
      }
    }

    /** Brings the average up to date, with `m` idle packet times if the queue was
        idle. */
    method TakeAverage(m: nat)
      modifies this`vAve, this`idle
      ensures vAve == Average(|q|, if old(idle) then m + 1 else 1, old(vAve), c.qW)
      ensures !idle && (c.qW == 1.0 ==> vAve == |q| as real)
    {
      var n := 0;
      if idle {
        idle := false;
        n := m;
      }
      WeightOneIsInstantaneous(|q|, n + 1, vAve);
      vAve := Estimator(|q|, n + 1, vAve, c.qW);
    }

    /** A packet arrives. `m` counts the packets that could have left while the
        queue was idle, `u` is the random draw of an early drop. */
    method Enque(pkt: RedPacket, m: nat, u: real) returns (dropped: bool, marked: bool)
      requires Valid() && 0.0 <= u < 1.0
      modifies this
      ensures Valid()
      ensures q == if dropped then old(q) else old(q) + [pkt.(ce := pkt.ce || marked)]
      ensures |old(q)| == c.qlim ==> dropped
      ensures var v := DropLogic(c, vAve, old(count) + 1, old(above), pkt.ect, |old(q)|, u);
              && log == old(log) + [Event(pkt.ect, |old(q)|, vAve, u, marked, v.unforced, dropped)]
              && marked == v.marked && above == v.above
              && dropped == (v.forced || v.unforced || |old(q)| == c.qlim)
              && count == if (v.forced || |old(q)| == c.qlim) && !c.ns1Compat then 0 else v.count
      ensures vAve == Average(|old(q)|, if old(idle) then m + 1 else 1, old(vAve), c.qW)
    {
      hide Average, DropLogic, Marker, Dctcp, High, Traced;
      TakeAverage(m);
      count := count + 1;
      var qlen := |q|;
      var forced, unforced;
      DropLogicBounds(c, vAve, count, above, pkt.ect, qlen, u);
      ghost var wasAbove, wasCount, arrivals := above, old(count), count;
      forced, unforced, marked := Decide(pkt, qlen, u);
      dropped := Admit(pkt, forced, unforced, marked);
      ghost var e := Event(pkt.ect, qlen, vAve, u, marked, unforced, dropped);
      TracedStep(c, log, wasCount, wasAbove, e);
      MarkerStep(c, log, wasAbove, vAve, arrivals, u, e);
      log := log + [e];
    }

    /** A packet leaves, or the queue is found idle. */
    method Deque() returns (p: seq<RedPacket>)
      requires Valid()
      modifies this`q, this`idle
      ensures Valid() && p + q == old(q) && |p| <= 1 && (p == [] <==> old(q) == []) && idle == (p == [])
    {
      if q != [] {
        p, q, idle := q[..1], q[1..], false;
      } else {
        p, idle := [], true;
      }
    }
  }

  lemma CertainAtOne(count: int, wait: bool)
    requires 1 <= count
    ensures ModifyP(1.0, count, wait) == 1.0
  {}

  lemma MarksAppend(c: RedConfig, log: seq<Event>, e: Event)
    requires MarksRight(c, log) && e.seen <= c.qlim
    requires var continues := High(c, e.seen) && log != [] && High(c, log[|log| - 1].seen);
             && (e.marked <==> e.ect && continues)
             && (e.dropped <==> e.seen == c.qlim || (!e.ect && continues))
    ensures MarksRight(c, log + [e])
  {
    var log' := log + [e];
    assert forall i: nat | i < |log| :: log'[i] == log[i] && Continues(c, log', i) == Continues(c, log, i);
  }
}
