/** What one round-trip sample and one timeout do, told without the routines. */
module RttLaws {
  import opened RttEstimation

  /** How far a measurement is from the average, in whole ticks. */
  function Distance(e: Estimate, ticks: int): nat {
    if ticks < e.srtt / 8 then e.srtt / 8 - ticks else ticks - e.srtt / 8
  }

  /** No difference leaves the range of a short. */
  predicate NoWrap(e: Estimate, ticks: int) {
    Distance(e, ticks) <= 32767 && -32768 <= Distance(e, ticks) - e.rttvar / 4 <= 32767
  }

  /** Section 2 of RFC 2988 in fixed point: the average moves an eighth of the way to
      the measurement, the deviation a quarter of the way to the distance between them,
      in both directions and up to rounding; the timeout is the average and four
      deviations. `srtt` is 8 times the average and `rttvar` 4 times the deviation. */
  lemma SampleLaw(e: Estimate, ticks: int)
    requires 1 <= ticks && 1 <= e.srtt && 1 <= e.rttvar && NoWrap(e, ticks)
    ensures var e' := Update(e, ticks);
            && 8 * ticks - e.srtt <= 8 * (e'.srtt - e.srtt) <= 8 * ticks - e.srtt + 7
            && 4 * Distance(e, ticks) - e.rttvar <= 4 * (e'.rttvar - e.rttvar) <= 4 * Distance(e, ticks) - e.rttvar + 3
            && e'.rto == e'.srtt / 8 + e'.rttvar
  {
    AverageMoves(e, ticks);
    DeviationMoves(e, ticks);
    hide ToShort, Delta, NextAverage, NextDeviation;
  }

  lemma AverageMoves(e: Estimate, ticks: int)
    requires 1 <= ticks && 1 <= e.srtt && Distance(e, ticks) <= 32767
    ensures NextAverage(e.srtt, Delta(e.srtt, ticks)) == e.srtt + ticks - e.srtt / 8
  {}

  lemma DeviationMoves(e: Estimate, ticks: int)
    requires 1 <= ticks && 1 <= e.srtt && 1 <= e.rttvar && NoWrap(e, ticks)
    ensures NextDeviation(e.rttvar, Delta(e.srtt, ticks)) == e.rttvar + Distance(e, ticks) - e.rttvar / 4
  {
    var d := Delta(e.srtt, ticks);
    assert d == ticks - e.srtt / 8;
    assert (if d < 0 then ToShort(-d) else d) == Distance(e, ticks);
    hide Delta;
  }

  /** So the average follows the measurement, and the deviation grows exactly when the
      measurement is further away than the deviation. */
  lemma SampleDirection(e: Estimate, ticks: int)
    requires 1 <= ticks && 1 <= e.srtt && 1 <= e.rttvar && NoWrap(e, ticks)
    ensures var e' := Update(e, ticks);
            && (e'.srtt > e.srtt <==> ticks > e.srtt / 8) && (e'.srtt < e.srtt <==> ticks < e.srtt / 8)
            && (e'.rttvar > e.rttvar <==> Distance(e, ticks) > e.rttvar / 4)
            && (e'.rttvar < e.rttvar <==> Distance(e, ticks) < e.rttvar / 4)
  {
    SampleLaw(e, ticks);
    hide Update;
  }

  /** The first sample is the average, and half of it the deviation. */
  lemma FirstSample(e: Estimate, ticks: int)
    requires 1 <= ticks && e.srtt == 0
    ensures var e' := Update(e, ticks); e'.srtt == 8 * ticks && 2 * e'.rttvar == 4 * ticks && e'.rto == 3 * ticks
  {}

  /** An illustration: a rise from 10 to 30 ticks. */
  lemma RiseRaisesTimeout()
    ensures var e := Update(Estimate(80, 20, 30), 30); e.rttvar == 35 && e.rto == 47
  {
    assert ToShort(20) == 20 && ToShort(15) == 15;
  }

  // Timeouts

  function Pow2(n: nat): nat {
    if n == 0 then 1 else 2 * Pow2(n - 1)
  }

  /** The multiplier after consecutive timeouts from 1; `belows` says for each whether
      the timeout was under its maximum. */
  function BackoffAfter(belows: seq<bool>): int {
    if belows == [] then 1 else NextBackoff(BackoffAfter(belows[..|belows| - 1]), belows[|belows| - 1])
  }

  /** How many of them double it: the first six, and those under the maximum. */
  function Doublings(belows: seq<bool>): nat {
    if belows == [] then 0
    else
      var n := Doublings(belows[..|belows| - 1]);
      if n < 6 || belows[|belows| - 1] then n + 1 else n
  }

  lemma {:induction false} Pow2Below64(n: nat)
    ensures Pow2(n) < 64 <==> n < 6
    ensures 1 <= Pow2(n) && (6 <= n ==> 64 <= Pow2(n))
  {
    if n > 6 {
      Pow2Below64(n - 1);
    } else {
      assert Pow2(1) == 2 && Pow2(2) == 4 && Pow2(3) == 8 && Pow2(4) == 16 && Pow2(5) == 32 && Pow2(6) == 64;
    }
  }

  /** The multiplier is two to the number of doublings, and otherwise it stays. */
  lemma {:induction false} BackoffIs(belows: seq<bool>)
    ensures BackoffAfter(belows) == Pow2(Doublings(belows))
  {
    if belows != [] {
      var init := belows[..|belows| - 1];
      BackoffIs(init);
      Pow2Below64(Doublings(init));
    }
  }

  /** k timeouts give 2^k while the multiplier is under 64 or the timeout under its
      maximum. */
  lemma {:induction false} AllDouble(belows: seq<bool>)
    requires forall i | 6 <= i < |belows| :: belows[i]
    ensures Doublings(belows) == |belows| && BackoffAfter(belows) == Pow2(|belows|)
  {
    if belows != [] {
      AllDouble(belows[..|belows| - 1]);
    }
    BackoffIs(belows);
  }

  /** At the maximum throughout, the multiplier stops at 64. */
  lemma {:induction false} StopsAt64(belows: seq<bool>)
    requires forall i | 0 <= i < |belows| :: !belows[i]
    ensures Doublings(belows) == (if |belows| < 6 then |belows| else 6)
    ensures 6 <= |belows| ==> BackoffAfter(belows) == 64
  {
    if belows != [] {
      StopsAt64(belows[..|belows| - 1]);
    }
    BackoffIs(belows);
    assert Pow2(1) == 2 && Pow2(2) == 4 && Pow2(3) == 8 && Pow2(4) == 16 && Pow2(5) == 32 && Pow2(6) == 64;
  }

  /** Far enough back the average moves into the deviation, and the next sample starts
      afresh. */
  lemma ClobberForgets(e: Estimate, backoff: int, ticks: int)
    requires 8 < backoff
    ensures var e' := Clobber(e, backoff);
            e'.srtt == 0 && e'.rttvar == e.rttvar + e.srtt / 8 && e'.rto == e.rto
    ensures Update(Clobber(e, backoff), ticks) == Update(Unknown(0), ticks)
  {}

  /** Up to a multiplier of 8 the estimate stays. */
  lemma NearbyKeeps(e: Estimate, backoff: int)
    requires backoff <= 8
    ensures Clobber(e, backoff) == e
  {}
}
