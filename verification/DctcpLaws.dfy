/** What the DCTCP estimator computes, told from the acknowledgements alone: where the
    windows of data end, and how far alpha moves at each end. */
module DctcpLaws {
  import opened Reals
  import opened DctcpControl

  /** The packets an acknowledgement counts for; one when it does not advance. */
  function Counted(a: AckInfo): int {
    if a.highestAck < a.seqno then a.seqno - a.highestAck else 1
  }

  /** Packets acknowledged by acknowledgements from .. to - 1. */
  function AckedIn(acks: seq<AckInfo>, from: nat, to: nat): int
    requires from <= to <= |acks|
  {
    if from == to then 0 else AckedIn(acks, from, to - 1) + Counted(acks[to - 1])
  }

  /** Those of them acknowledged with an echo. */
  function EchoedIn(acks: seq<AckInfo>, from: nat, to: nat): int
    requires from <= to <= |acks|
  {
    if from == to then 0
    else EchoedIn(acks, from, to - 1) + if acks[to - 1].ecnecho then Counted(acks[to - 1]) else 0
  }

  /** Acknowledgement `i` ends a window. */
  ghost predicate EndsAt(s: Estimator, g: real, acks: seq<AckInfo>, i: nat)
    requires i < |acks|
  {
    Ends(Run(s, g, acks[..i]), acks[i])
  }

  /** No window ends from acknowledgement `from` to `to - 1`. */
  ghost predicate NoEnd(s: Estimator, g: real, acks: seq<AckInfo>, from: nat, to: nat)
    requires from <= to <= |acks|
  {
    forall k: nat | from <= k < to :: !EndsAt(s, g, acks, k)
  }

  /** `x'` lies the part `g` of the way from `x` to marked / total. */
  predicate Towards(x: real, x': real, g: real, marked: int, total: int) {
    0 < total && (x' - x) * total as real == g * (marked as real - x * total as real)
  }

  lemma RunNext(s: Estimator, g: real, acks: seq<AckInfo>, i: nat)
    requires i < |acks|
    ensures Run(s, g, acks[..i + 1]) == OnAck(Run(s, g, acks[..i]), g, acks[i])
  {
    assert acks[..i + 1][..i] == acks[..i] && acks[..i + 1][i] == acks[i];
  }

  /** Between window ends the counters add up and nothing else moves. */
  lemma {:induction false} Counts(s: Estimator, g: real, acks: seq<AckInfo>, from: nat, to: nat)
    requires from <= to <= |acks| && NoEnd(s, g, acks, from, to)
    ensures var r := Run(s, g, acks[..from]);
            Run(s, g, acks[..to]) ==
            Estimator(r.total + AckedIn(acks, from, to), r.marked + EchoedIn(acks, from, to), r.updateSeq, r.alpha)
  {
    if from < to {
      Counts(s, g, acks, from, to - 1);
      RunNext(s, g, acks, to - 1);
      assert !EndsAt(s, g, acks, to - 1);
      hide Run, Mix;
    }
  }

  lemma {:induction false} AckedPositive(acks: seq<AckInfo>, from: nat, to: nat)
    requires from <= to <= |acks|
    ensures to - from <= AckedIn(acks, from, to)
  {
    if from < to {
      AckedPositive(acks, from, to - 1);
    }
  }

  lemma MixTowards(g: real, x: real, marked: int, total: int)
    requires 0 < total
    ensures Towards(x, Mix(g, x, marked as real / total as real), g, marked, total)
  {
    var m, t := marked as real, total as real;
    var q := m / t;
    assert q * t == m;
    assert Mix(g, x, q) - x == g * (q - x);
    ScaleUp(g, q, x, t, m);
  }

  lemma ScaleUp(g: real, q: real, x: real, t: real, m: real)
    requires q * t == m
    ensures (g * (q - x)) * t == g * (m - x * t)
  {
    assert (q - x) * t == m - x * t;
    assert (g * (q - x)) * t == g * ((q - x) * t);
  }

  /** One step at acknowledgement `i`, when no window has ended since `from`. */
  lemma StepLaw(s: Estimator, g: real, acks: seq<AckInfo>, from: nat, i: nat)
    requires from <= i < |acks| && NoEnd(s, g, acks, from, i) && 0 <= Run(s, g, acks[..from]).total
    ensures var r, r' := Run(s, g, acks[..from]), Run(s, g, acks[..i + 1]);
            && (EndsAt(s, g, acks, i) <==> acks[i].seqno > r.updateSeq)
            && (!EndsAt(s, g, acks, i) ==> r'.alpha == r.alpha)
            && (EndsAt(s, g, acks, i) ==>
                  && r' == Estimator(0, 0, acks[i].maxseq, r'.alpha)
                  && Towards(r.alpha, r'.alpha, g, r.marked + EchoedIn(acks, from, i + 1),
                             r.total + AckedIn(acks, from, i + 1)))
  {
    Counts(s, g, acks, from, i);
    RunNext(s, g, acks, i);
    AckedPositive(acks, from, i);
    var r := Run(s, g, acks[..from]);
    MixTowards(g, r.alpha, r.marked + EchoedIn(acks, from, i + 1), r.total + AckedIn(acks, from, i + 1));
    hide Run, Mix, Towards;
  }

  /** The first window, from any state: it ends with the first acknowledgement above
      the mark the state carries. */
  lemma FirstWindow(s: Estimator, g: real, acks: seq<AckInfo>, i: nat)
    requires i < |acks| && NoEnd(s, g, acks, 0, i) && 0 <= s.total
    ensures EndsAt(s, g, acks, i) <==> acks[i].seqno > s.updateSeq
    ensures var alpha' := Run(s, g, acks[..i + 1]).alpha;
            if acks[i].seqno > s.updateSeq then
              Towards(s.alpha, alpha', g, s.marked + EchoedIn(acks, 0, i + 1), s.total + AckedIn(acks, 0, i + 1))
            else alpha' == s.alpha
  {
    assert acks[..0] == [];
    StepLaw(s, g, acks, 0, i);
  }

  /** Section 3.3 of RFC 8257, over every trace. A window ends with the first
      acknowledgement above the highest packet sent at the end of the one before, and
      no other; there alpha moves the part `g` of the way to the fraction of packets
      that were acknowledged with an echo since then, and nowhere else. */
  lemma WindowLaw(s: Estimator, g: real, acks: seq<AckInfo>, j: nat, i: nat)
    requires j < i < |acks| && 0 <= s.total && EndsAt(s, g, acks, j) && NoEnd(s, g, acks, j + 1, i)
    ensures EndsAt(s, g, acks, i) <==> acks[i].seqno > acks[j].maxseq
    ensures var alpha, alpha' := Run(s, g, acks[..j + 1]).alpha, Run(s, g, acks[..i + 1]).alpha;
            if acks[i].seqno > acks[j].maxseq then
              Towards(alpha, alpha', g, EchoedIn(acks, j + 1, i + 1), AckedIn(acks, j + 1, i + 1))
            else alpha' == alpha
  {
    RunNext(s, g, acks, j);
    assert Run(s, g, acks[..j + 1]) == Estimator(0, 0, acks[j].maxseq, Run(s, g, acks[..j + 1]).alpha);
    StepLaw(s, g, acks, j + 1, i);
  }

  /** An illustration: ten packets, five of them echoed, with g = 1/16 and alpha 0. */
  lemma HalfMarked()
    ensures var acks := [AckInfo(4, true, -1, 20), AckInfo(9, false, 4, 20)];
            Run(Estimator(0, 0, 8, 0.0), 0.0625, acks).alpha == 0.03125
  {
    var acks := [AckInfo(4, true, -1, 20), AckInfo(9, false, 4, 20)];
    assert acks[..1] == [acks[0]] && acks[..1][..0] == [];
    assert Run(Estimator(0, 0, 8, 0.0), 0.0625, acks[..1]) == Estimator(5, 5, 8, 0.0);
  }
}
