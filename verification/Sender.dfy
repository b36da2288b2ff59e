/** `Sack1TcpAgent` over `TcpAgent`: acknowledgements, fast recovery, timeouts, ECN
    and the sending loop. The scoreboard is an oracle that names packets already
    sent; F-RTO, Quick-Start and `partial_ack_` are off. */
module Senders {
  import opened Arith
  import opened DctcpControl
  import opened RttEstimation

  datatype Action = NoAction | DupackAction | TimeoutAction | EcnAction

  datatype SenderConfig = SenderConfig(
    dctcp: bool, ecn: bool, bugFix: bool, bugfixSs: bool, singledup: bool, limTransmitFix: bool,
    oldCode: bool, slowStartRestart: bool, restartBugfix: bool, aggressiveMaxburst: bool, oldEcn: bool,
    controlIncrease: bool, setCwrOnRetransmit: bool, syn: bool, maxburst: nat, numdupacks: int, numdupacksFrac: int,
    wnd: real, g: real, wndRestart: real, decreaseNum: real, precision: bool)

  predicate Reasonable(c: SenderConfig) {
    0 < c.numdupacksFrac && 1.0 <= c.wnd && 0.0 <= c.g <= 1.0
  }

  datatype DataPacket = DataPacket(seqno: int, congAction: bool, ect: bool, ecnecho: bool)

  datatype AckIn = AckIn(seqno: int, ecnecho: bool, congAction: bool)

  /** What is decided elsewhere while one event is processed: whether the
      acknowledgement tells the scoreboard anything new, which packets it wants
      retransmitted, how many ticks a round-trip sample counts, and whether the
      timeout is below its maximum. */
  datatype Oracle = Oracle(updated: bool, retransmit: seq<int>, ticks: int, below: bool)

  /** The state of the retransmission timer: the round-trip estimate, the multiplier
      of the timeout, whether a packet is being timed, and which one. */
  datatype Timer = Timer(estimate: Estimate, backoff: int, active: bool, seqno: int)

  function BackOff(t: Timer, below: bool): Timer {
    var backoff := NextBackoff(t.backoff, below);
    t.(estimate := Clobber(t.estimate, backoff), backoff := backoff)
  }

  predicate SameBackoff(t: Timer, t': Timer) {
    t.estimate == t'.estimate && t.backoff == t'.backoff
  }

  /** Whether acknowledgement `seqno` takes a sample. */
  predicate TakesSample(t: Timer, seqno: int) {
    t.active && seqno >= t.seqno
  }

  /** The timer after that acknowledgement; `hold` keeps the multiplier. */
  function AfterSample(t: Timer, seqno: int, ticks: int, hold: bool): Timer {
    if !TakesSample(t, seqno) then t
    else Timer(Update(t.estimate, ticks), if hold then t.backoff else 1, false, t.seqno)
  }

  /** The timer after new data `seqno` has been sent. */
  function AfterNewData(t: Timer, seqno: int): Timer {
    if t.active then t else t.(active := true, seqno := Max(t.seqno, seqno))
  }

  /** A window cut for ECN: the highest packet sent by then, the highest one
      acknowledged, and whether a timeout came after the cut before. */
  datatype EcnEvent = EcnEvent(top: int, acked: int, afterTimeout: bool)

  /** At most one cut for each window of data: short of a timeout, whatever was sent
      before a cut is acknowledged by the next. */
  ghost predicate OncePerWindow(cuts: seq<EcnEvent>) {
    forall i | 0 < i < |cuts| :: cuts[i].afterTimeout || cuts[i - 1].top <= cuts[i].acked
  }

  /** The highest packet sent when the window was last cut for ECN. */
  ghost function LastTop(cuts: seq<EcnEvent>): int {
    if cuts == [] then -1 else cuts[|cuts| - 1].top
  }

  /** One event later: a cut, or none. */
  ghost predicate CutBy(was: seq<EcnEvent>, now: seq<EcnEvent>, cut: bool, e: EcnEvent) {
    now == if cut then was + [e] else was
  }

  lemma CutOnce(cuts: seq<EcnEvent>, e: EcnEvent)
    requires OncePerWindow(cuts) && (e.afterTimeout || LastTop(cuts) <= e.acked)
    ensures OncePerWindow(cuts + [e]) && LastTop(cuts + [e]) == e.top
  {
    var cuts' := cuts + [e];
    forall i | 0 < i < |cuts'|
      ensures cuts'[i].afterTimeout || cuts'[i - 1].top <= cuts'[i].acked
    {
      if i < |cuts| {
        assert cuts'[i] == cuts[i] && cuts'[i - 1] == cuts[i - 1];
      }
    }
  }

  /** The cuts so far, with the last one answered for by the recovery point or by an
      acknowledgement. */
  ghost predicate CutsKept(cuts: seq<EcnEvent>, maxseq: int, recover: int, highestAck: int) {
    OncePerWindow(cuts) && -1 <= LastTop(cuts) <= maxseq && (LastTop(cuts) <= recover || LastTop(cuts) <= highestAck)
  }

  ghost predicate WasSent(sent: seq<DataPacket>, s: int) {
    exists p | p in sent :: p.seqno == s
  }

  /** Packets 0 to maxseq have all been sent, and nothing else has. */
  ghost predicate SentExactly(sent: seq<DataPacket>, maxseq: int) {
    forall s :: WasSent(sent, s) <==> 0 <= s <= maxseq
  }

  lemma SendOneMore(sent: seq<DataPacket>, maxseq: int, p: DataPacket)
    requires SentExactly(sent, maxseq) && 0 <= p.seqno <= maxseq + 1
    ensures SentExactly(sent + [p], Max(maxseq, p.seqno))
  {
    var sent' := sent + [p];
    assert p in sent' && forall q | q in sent :: q in sent';
    forall s
      ensures WasSent(sent', s) <==> WasSent(sent, s) || s == p.seqno
    {
      if WasSent(sent, s) {
        var q :| q in sent && q.seqno == s;
        assert q in sent';
      }
    }
  }

  function SeqnosOf(ps: seq<DataPacket>): (r: seq<int>)
    ensures |r| == |ps| && forall i | 0 <= i < |ps| :: r[i] == ps[i].seqno
  {
    seq(|ps|, i requires 0 <= i < |ps| => ps[i].seqno)
  }

  /** The window opened by at most one packet. */
  predicate Grown(w: Window, w': Window) {
    w.cwnd <= w'.cwnd <= w.cwnd + 1.0 && w'.ssthresh == w.ssthresh && w'.wnd == w.wnd
  }

  /** a, a + 1, ..., b - 1. */
  function Range(a: int, b: int): (r: seq<int>)
    ensures |r| == (if a <= b then b - a else 0) && forall i | 0 <= i < |r| :: r[i] == a + i
  {
    if a <= b then seq(b - a, i => a + i) else []
  }

  /** What has been sent since `was`, when new data started at `from` and has reached
      `next`: new data in order, or packets named for retransmission. */
  ghost predicate SentSince(was: seq<DataPacket>, sent: seq<DataPacket>, from: int, next: int, named: seq<int>) {
    && was <= sent && from <= next
    && (named == [] ==> SeqnosOf(sent[|was|..]) == Range(from, next))
    && forall x | x in SeqnosOf(sent[|was|..]) :: x in named || from <= x < next
  }

  /** How far sending has come: the application's data and the SYN packet, the highest
      packet sent, and where new data has stopped below `limit`. */
  ghost predicate SendsTo(named: seq<int>, syn: bool, limit: int, from: int, t: int, cur: int, cur': int,
                          top: int, top': int) {
    && cur' == cur + (if syn && top == -1 && 0 <= top' then 1 else 0)
    && top' <= Max(top, cur' - 1)
    && (named == [] ==> t == from || (from < t <= limit && t <= cur'))
  }

  /** The first packet sent since `was` is packet `x`. */
  ghost predicate StartsWith(was: seq<DataPacket>, sent: seq<DataPacket>, x: int) {
    |was| < |sent| && sent[|was|].seqno == x
  }

  lemma StartsWithNext(was: seq<DataPacket>, sent: seq<DataPacket>, p: DataPacket, x: int)
    requires StartsWith(was, sent, x) || (sent == was && p.seqno == x)
    ensures StartsWith(was, sent + [p], x)
  {}

  /** With everything acknowledged: the application's data has not changed, new packets
      are among it, and if it was not exhausted there are some. */
  ghost predicate Continues(was: seq<DataPacket>, sent: seq<DataPacket>, cur: int, cur': int, top: int, top': int) {
    && cur' == cur && top <= top' <= Max(top, cur - 1)
    && (top + 1 < cur ==> top < top')
    && (cur <= top + 1 ==> sent == was)
  }

  lemma ContinuesMeans(was: seq<DataPacket>, sent: seq<DataPacket>, cur: int, cur': int, top: int, top': int)
    requires Continues(was, sent, cur, cur', top, top')
    ensures cur' == cur && top <= top' <= Max(top, cur - 1) && (top + 1 < cur ==> top < top')
    ensures cur <= top + 1 ==> sent == was
  {}

  lemma SendsNothing(named: seq<int>, syn: bool, limit: int, t: int, cur: int, top: int)
    ensures SendsTo(named, syn, limit, t, t, cur, cur, top, top)
  {}

  lemma SendsNext(named: seq<int>, syn: bool, limit: int, from: int, t: int, cur: int, cur': int, cur'': int,
                  top: int, top': int, x: int)
    requires SendsTo(named, syn, limit, from, t, cur, cur', top, top') && -1 <= top <= top'
    requires 0 <= x && (x <= top' || (x == top' + 1 && x < cur')) && (named == [] ==> x == t && x < cur' && x < limit)
    requires cur'' == cur' + (if syn && x == 0 && top' == -1 then 1 else 0)
    ensures SendsTo(named, syn, limit, from, Max(t, x + 1), cur, cur'', top, Max(top', x))
  {}

  lemma SentNothing(sent: seq<DataPacket>, from: int, named: seq<int>)
    ensures SentSince(sent, sent, from, from, named)
  {}

  lemma SentNext(was: seq<DataPacket>, sent: seq<DataPacket>, p: DataPacket, from: int, next: int, named: seq<int>)
    requires SentSince(was, sent, from, next, named)
    requires p.seqno in named || p.seqno == next
    requires named == [] ==> p.seqno == next
    ensures SentSince(was, sent + [p], from, Max(next, p.seqno + 1), named)
  {
    assert (sent + [p])[|was|..] == sent[|was|..] + [p];
    assert SeqnosOf(sent[|was|..] + [p]) == SeqnosOf(sent[|was|..]) + [p.seqno];
  }

  /** What the sending loop changes. */
  datatype Snapshot = Snapshot(sent: seq<DataPacket>, tSeqno: int, curseq: int, maxseq: int, pipe: int, timer: Timer)

  /** What the sending loop has done between two snapshots. */
  ghost predicate Sending(was: Snapshot, now: Snapshot, named: seq<int>, syn: bool, limit: int) {
    && SentSince(was.sent, now.sent, was.tSeqno, now.tSeqno, named)
    && SendsTo(named, syn, limit, was.tSeqno, now.tSeqno, was.curseq, now.curseq, was.maxseq, now.maxseq)
    && now.pipe == was.pipe + |now.sent| - |was.sent| && SameBackoff(now.timer, was.timer)
    && -1 <= was.maxseq <= now.maxseq && (|now.sent| == |was.sent| ==> now == was.(timer := now.timer))
  }

  lemma SendingNothing(was: Snapshot, named: seq<int>, syn: bool, limit: int)
    requires -1 <= was.maxseq
    ensures Sending(was, was, named, syn, limit)
  {
    SentNothing(was.sent, was.tSeqno, named);
    SendsNothing(named, syn, limit, was.tSeqno, was.curseq, was.maxseq);
  }

  lemma SendingNext(was: Snapshot, now: Snapshot, next: Snapshot, p: DataPacket, named: seq<int>, syn: bool, limit: int)
    requires Sending(was, now, named, syn, limit)
    requires p.seqno in named || p.seqno == now.tSeqno
    requires named == [] ==> p.seqno == now.tSeqno && p.seqno < now.curseq && p.seqno < limit
    requires 0 <= p.seqno && (p.seqno <= now.maxseq || (p.seqno == now.maxseq + 1 && p.seqno < now.curseq))
    requires next == Snapshot(now.sent + [p], Max(now.tSeqno, p.seqno + 1),
                              now.curseq + (if syn && p.seqno == 0 && now.maxseq == -1 then 1 else 0),
                              Max(now.maxseq, p.seqno), now.pipe + 1, next.timer)
    requires SameBackoff(next.timer, now.timer)
    ensures Sending(was, next, named, syn, limit)
  {
    SentNext(was.sent, now.sent, p, was.tSeqno, now.tSeqno, named);
    SendsNext(named, syn, limit, was.tSeqno, now.tSeqno, was.curseq, now.curseq, next.curseq,
              was.maxseq, now.maxseq, p.seqno);
    hide SentSince, SendsTo;
  }

  lemma SendingMeans(was: Snapshot, now: Snapshot, named: seq<int>, syn: bool, limit: int)
    requires Sending(was, now, named, syn, limit)
    ensures SentSince(was.sent, now.sent, was.tSeqno, now.tSeqno, named)
    ensures SendsTo(named, syn, limit, was.tSeqno, now.tSeqno, was.curseq, now.curseq, was.maxseq, now.maxseq)
    ensures now.pipe == was.pipe + |now.sent| - |was.sent| && SameBackoff(now.timer, was.timer)
    ensures was.maxseq <= now.maxseq && (|now.sent| == |was.sent| ==> now == was.(timer := now.timer))
    ensures named == [] && |was.sent| < |now.sent| ==> was.tSeqno < now.tSeqno
  {
    if named == [] && |was.sent| < |now.sent| {
      assert |SeqnosOf(now.sent[|was.sent|..])| == |Range(was.tSeqno, now.tSeqno)|;
    }
  }

  class Sack1TcpAgent {
    const c: SenderConfig
    var tSeqno: int
    var dupacks: int
    var curseq: int
    var highestAck: int
    var lastAck: int
    var maxseq: int
    var recover: int
    var pipe: int
    var fastrecov: bool
    var timedOut: bool
    var cwnd: real
    var ssthresh: int
    var count: int
    var lastAction: Action
    var firstDecrease: bool
    var congAction: bool
    var ecnBackoff: bool
    var ecnBurst: bool
    var ect: bool
    var prevHighestAck: int
    var timer: Timer
    var dctcpTotal: int
    var dctcpMarked: int
    var dctcpAlphaUpdateSeq: int
    var dctcpMaxseq: int
    var dctcpAlpha: real

    /** Everything handed to the network. */
    var sent: seq<DataPacket>
    ghost var cuts: seq<EcnEvent>

    function Dctcp(): DctcpControl.Estimator
      reads this
    {
      Estimator(dctcpTotal, dctcpMarked, dctcpAlphaUpdateSeq, dctcpAlpha)
    }

    /** What every step keeps. Outside fast recovery the two acknowledgement
        variables agree; inside it the highest is at most the recovery point. */
    ghost predicate Sequenced()
      reads this
    {
      && -1 <= lastAck <= highestAck <= maxseq
      && (!fastrecov ==> lastAck == highestAck)
      && (fastrecov ==> 0 <= maxseq && highestAck <= recover)
      && recover <= Max(0, maxseq)
      && lastAck + 1 <= tSeqno <= maxseq + 1
      && maxseq <= highestAck + Trunc(c.wnd)
      && SentExactly(sent, maxseq)
    }

    ghost predicate Valid()
      reads this
    {
      && Reasonable(c) && Sequenced() && 1.0 <= cwnd && Sane(Dctcp())
      && CutsKept(cuts, maxseq, recover, highestAck)
    }

    lemma SentBound(p: DataPacket)
      requires Valid() && p in sent
      ensures 0 <= p.seqno <= maxseq
    {
      assert WasSent(sent, p.seqno);
    }

    constructor (c: SenderConfig, initialWindow: real, alpha: real, estimate: Estimate)
      requires Reasonable(c) && 1.0 <= initialWindow && 0.0 <= alpha <= 1.0
      ensures Valid() && this.c == c && highestAck == lastAck == maxseq == -1 && sent == [] && curseq == 0
    {
      this.c := c;
      tSeqno, dupacks, curseq, maxseq, lastAck, highestAck := 0, 0, 0, -1, -1, -1;
      recover, pipe, fastrecov, timedOut := 0, -1, false, false;
      cwnd, ssthresh, count, lastAction := initialWindow, Trunc(c.wnd), 0, NoAction;
      firstDecrease, congAction, ecnBackoff, ecnBurst, ect := true, false, false, false, false;
      prevHighestAck, timer := -1, Timer(estimate, 1, false, -1);
      dctcpTotal, dctcpMarked, dctcpAlphaUpdateSeq, dctcpMaxseq, dctcpAlpha := 0, 0, 0, 0, alpha;
      sent, cuts := [], [];
    }

    /** Packet `seqno` as it would be sent now. Data is ECN-capable; the first packet
        asks for it, and is itself so only with DCTCP. */
    function PacketFor(seqno: int): (p: DataPacket)
      reads this
      ensures p.seqno == seqno
    {
      DataPacket(seqno, congAction && (seqno >= maxseq || c.setCwrOnRetransmit),
                 c.ecn && (seqno != 0 || c.dctcp), c.ecn && seqno == 0)
    }

    /** Hands packet `seqno` to the network. */
    method Output(seqno: int)
      requires SentExactly(sent, maxseq) && 0 <= seqno <= maxseq + 1
      modifies this`curseq, this`congAction, this`dctcpMaxseq, this`maxseq, this`sent, this`timer
      ensures SentExactly(sent, maxseq) && maxseq == Max(old(maxseq), seqno)
      ensures sent == old(sent) + [old(PacketFor(seqno))]
      ensures congAction == (old(congAction) && !old(PacketFor(seqno)).congAction)
      ensures dctcpMaxseq == if c.dctcp then Max(old(dctcpMaxseq), seqno) else old(dctcpMaxseq)
      ensures curseq == old(curseq) + if c.syn && seqno == 0 && old(maxseq) == -1 then 1 else 0
      ensures timer == if seqno > old(maxseq) then AfterNewData(old(timer), seqno) else old(timer)
    {
      ghost var was := PacketFor(seqno);
      var isRetransmit := seqno < maxseq;
      var p := DataPacket(seqno, false, false, false);
      if c.ecn {
        p := p.(ect := true);
      }
      if congAction && (!isRetransmit || c.setCwrOnRetransmit) {
        p := p.(congAction := true);
        congAction := false;
      }
      if seqno == 0 {
        if c.syn {
          if maxseq == -1 {
            curseq := curseq + 1;
          }
        }
        if c.ecn {
          p := p.(ecnecho := true, ect := false);
          if c.dctcp {
            p := p.(ect := true);
          }
        }
      }
      assert p == was;
      hide AfterNewData;
      SendOneMore(sent, maxseq, p);
      hide SentExactly, OncePerWindow, LastTop;
      sent := sent + [p];
      if c.dctcp {
        if seqno > dctcpMaxseq {
          dctcpMaxseq := seqno;
        }
      }
      if seqno > maxseq {
        maxseq := seqno;
        StartTiming(seqno);
      }
    }

    method StartTiming(seqno: int)
      modifies this`timer
      ensures timer == AfterNewData(old(timer), seqno)
    {
      if !timer.active {
        timer := timer.(active := true);
        if seqno > timer.seqno {
          timer := timer.(seqno := seqno);
        }
      }
    }

    function Win(): real
      reads this
    {
      if cwnd < c.wnd then cwnd else c.wnd
    }

    /** The number of duplicates that trigger fast retransmit. */
    function NumDupacksAt(window: real): int
      requires 0 < c.numdupacksFrac
    {
      Max(c.numdupacks, Trunc(window) / c.numdupacksFrac)
    }

    function NumDupacks(): int
      requires 0 < c.numdupacksFrac
      reads this
    {
      NumDupacksAt(cwnd)
    }

    /** The window as `slowdown` sees it. */
    function View(): Window
      reads this
    {
      Window(cwnd, c.wnd, ssthresh)
    }

    /** The window after a cut. */
    function CutTo(cut: Cut, afterTimeout: bool): Window
      reads this
    {
      Slowdown(View(), CutConfig(dctcpAlpha, c.wndRestart, c.decreaseNum, c.precision),
               cut, firstDecrease, afterTimeout)
    }

    method CutWindow(cut: Cut)
      requires 1.0 <= cwnd
      modifies this`cwnd, this`ssthresh, this`count, this`firstDecrease, this`congAction
      ensures View() == old(CutTo(cut, lastAction == TimeoutAction))
      ensures 1.0 <= cwnd && congAction && !firstDecrease && count == 0
    {
      var w := CutTo(cut, lastAction == TimeoutAction);
      cwnd, ssthresh := w.cwnd, w.ssthresh;
      congAction, count, firstDecrease := true, 0, false;
    }

    /** The congestion echo: at most one cut for each window of data. After a cut,
        and short of a timeout, the next one waits until everything sent before it
        has been acknowledged. */
    method Ecn(seqno: int, below: bool)
      requires Valid()
      modifies this`recover, this`lastAction, this`ecnBackoff, this`cuts, this`timer
      modifies this`cwnd, this`ssthresh, this`count, this`firstDecrease, this`congAction
      ensures Valid()
      ensures if seqno > old(recover) || old(lastAction) == TimeoutAction then
                recover == maxseq && lastAction == EcnAction && congAction &&
                cuts == old(cuts) + [old(CutNow(seqno))] && ecnBackoff == (old(cwnd) <= 1.0) &&
                timer == (if old(cwnd <= 1.0 && ecnBackoff) then BackOff(old(timer), below) else old(timer)) &&
                View() == old(CutTo(if c.dctcp then DctcpCut else HalfCut, false))
              else
                recover == old(recover) && lastAction == old(lastAction) && cuts == old(cuts) &&
                timer == old(timer) && View() == old(View())
    {
      hide Slowdown, SentExactly, OncePerWindow, LastTop, Sane, BackOff, Trunc, CutTo;
      if seqno > recover || lastAction == TimeoutAction {
        EcnCut(seqno, below);
      }
    }

    /** An ECN cut for acknowledgement `seqno`. */
    ghost function CutNow(seqno: int): EcnEvent
      reads this
    {
      EcnEvent(maxseq, Max(seqno, highestAck), lastAction == TimeoutAction)
    }

    method EcnCut(seqno: int, below: bool)
      requires Valid() && (seqno > recover || lastAction == TimeoutAction)
      modifies this`recover, this`lastAction, this`ecnBackoff, this`cuts, this`timer
      modifies this`cwnd, this`ssthresh, this`count, this`firstDecrease, this`congAction
      ensures Valid() && recover == maxseq && lastAction == EcnAction && congAction
      ensures cuts == old(cuts) + [old(CutNow(seqno))]
      ensures ecnBackoff == (old(cwnd) <= 1.0)
      ensures timer == if old(cwnd <= 1.0 && ecnBackoff) then BackOff(old(timer), below) else old(timer)
      ensures View() == old(CutTo(if c.dctcp then DctcpCut else HalfCut, false))
    {
      hide Slowdown, SentExactly, OncePerWindow, LastTop, Sane, BackOff, Trunc;
      BackOffAtOne(below);
      MarkAndCut(seqno);
    }

    method MarkAndCut(seqno: int)
      requires Valid() && (seqno > recover || lastAction == TimeoutAction)
      modifies this`recover, this`lastAction, this`cuts
      modifies this`cwnd, this`ssthresh, this`count, this`firstDecrease, this`congAction
      ensures Valid() && recover == maxseq && lastAction == EcnAction && congAction
      ensures cuts == old(cuts) + [old(CutNow(seqno))]
      ensures View() == old(CutTo(if c.dctcp then DctcpCut else HalfCut, false))
    {
      hide Slowdown, SentExactly, OncePerWindow, LastTop, Sane, Trunc;
      ghost var cut := CutNow(seqno);
      CutOnce(cuts, cut);
      recover := maxseq;
      lastAction := EcnAction;
      if c.dctcp {
        CutWindow(DctcpCut);
      } else {
        CutWindow(HalfCut);
      }
      cuts := cuts + [cut];
    }

    /** A window of one packet cannot be cut further: from the second echo on the
        timer backs off instead. */
    method BackOffAtOne(below: bool)
      modifies this`ecnBackoff, this`timer
      ensures ecnBackoff == (cwnd <= 1.0)
      ensures timer == if old(cwnd <= 1.0 && ecnBackoff) then BackOff(old(timer), below) else old(timer)
    {
      hide BackOff;
      if cwnd <= 1.0 {
        if ecnBackoff {
          timer := BackOff(timer, below);
        } else {
          ecnBackoff := true;
        }
      } else {
        ecnBackoff := false;
      }
    }

    /** `update_dctcp_alpha`. */
    method UpdateDctcpAlpha(seqno: int, ecnecho: bool)
      requires Sane(Dctcp()) && 0.0 <= c.g <= 1.0
      modifies this`dctcpTotal, this`dctcpMarked, this`dctcpAlphaUpdateSeq, this`dctcpAlpha
      ensures Dctcp() == OnAck(old(Dctcp()), c.g, AckInfo(seqno, ecnecho, highestAck, dctcpMaxseq))
      ensures Sane(Dctcp())
    {
      ghost var a := AckInfo(seqno, ecnecho, highestAck, dctcpMaxseq);
      assert DctcpControl.Run(Dctcp(), c.g, []) == Dctcp() && [a][..0] == [];
      AlphaStaysAFraction(Dctcp(), c.g, [a]);
      assert Sane(OnAck(Dctcp(), c.g, a));
      var acked := seqno - highestAck;
      if acked <= 0 {
        acked := 1;
      }
      dctcpTotal := dctcpTotal + acked;
      if ecnecho {
        dctcpMarked := dctcpMarked + acked;
      }
      if seqno > dctcpAlphaUpdateSeq {
        dctcpAlphaUpdateSeq := dctcpMaxseq;
        var tempAlpha := 0.0;
        if dctcpTotal > 0 {
          tempAlpha := dctcpMarked as real / dctcpTotal as real;
        }
        dctcpAlpha := Mix(c.g, dctcpAlpha, tempAlpha);
        dctcpMarked, dctcpTotal := 0, 0;
      }
    }

    method OpenCwnd()
      requires 1.0 <= cwnd
      modifies this`cwnd, this`count
      ensures old(cwnd) <= cwnd <= old(cwnd) + 1.0
      ensures cwnd > old(cwnd) <==> old(cwnd) < ssthresh as real || (old(count) + 1) as real >= old(cwnd)
      ensures cwnd > old(cwnd) ==> cwnd == old(cwnd) + 1.0
      ensures count == if old(cwnd) < ssthresh as real then old(count)
                       else if cwnd > old(cwnd) then 0 else old(count) + 1
    {
      if cwnd < ssthresh as real {
        cwnd := cwnd + 1.0;
      } else {
        count := count + 1;
        if count as real >= cwnd {
          count := 0;
          cwnd := cwnd + 1.0;
        }
      }
    }

    /** Whether a round-trip sample leaves the multiplier of the timeout alone: the
        window is down to one packet and still too large. */
    predicate HoldsBackoff(ecnecho: bool)
      reads this
    {
      ect && ecnBackoff && ecnecho
    }

    /** `newack`: the cumulative acknowledgement moves. */
    method NewAck(ack: AckIn, ticks: int)
      modifies this`dupacks, this`lastAck, this`highestAck, this`prevHighestAck, this`tSeqno
      modifies this`timer, this`ecnBackoff
      ensures dupacks == 0 && lastAck == highestAck == ack.seqno && prevHighestAck == old(highestAck)
      ensures tSeqno == Max(old(tSeqno), ack.seqno + 1)
      ensures timer == AfterSample(old(timer), ack.seqno, ticks, old(HoldsBackoff(ack.ecnecho)))
      ensures ecnBackoff ==
              (old(ecnBackoff) && (TakesSample(old(timer), ack.seqno) ==> old(HoldsBackoff(ack.ecnecho))))
    {
      hide Update;
      dupacks := 0;
      lastAck := ack.seqno;
      prevHighestAck := highestAck;
      highestAck := lastAck;
      if tSeqno < lastAck + 1 {
        tSeqno := lastAck + 1;
      }
      if timer.active && ack.seqno >= timer.seqno {
        if !ect || !ecnBackoff || !ack.ecnecho {
          timer := timer.(backoff := 1);
          ecnBackoff := false;
        }
        timer := timer.(active := false);
        timer := timer.(estimate := Update(timer.estimate, ticks));
      }
    }

    /** Whether an acknowledgement lets the window grow: not with an echo, unless
        configured so and not the first of its kind, and, if growth is controlled,
        only while the network is the limit. */
    predicate Opens(ecnecho: bool)
      reads this
    {
      && (!ect || !ecnecho || (c.oldEcn && ecnBurst))
      && (!c.controlIncrease || tSeqno > prevHighestAck + Trunc(Win()))
    }

    /** The rest of a new acknowledgement outside fast recovery: growth, and what it
        says about ECN at the other end. */
    method GrowAndNegotiate(ack: AckIn)
      requires 1.0 <= cwnd
      modifies this`cwnd, this`count, this`ecnBackoff, this`ecnBurst, this`ect
      ensures old(cwnd) <= cwnd <= old(cwnd) + 1.0
      ensures !old(Opens(ack.ecnecho)) ==> cwnd == old(cwnd)
      ensures old(Opens(ack.ecnecho) && cwnd < ssthresh as real) ==> cwnd == old(cwnd) + 1.0
      ensures ect == (old(ect) || (ack.ecnecho && !ack.congAction))
      ensures old(ect) ==> ecnBurst == ack.ecnecho && ecnBackoff == (old(ecnBackoff) && ack.ecnecho)
      ensures !old(ect) ==> ecnBurst == old(ecnBurst) && ecnBackoff == old(ecnBackoff)
    {
      hide Trunc;
      if !ect || !ack.ecnecho || (c.oldEcn && ecnBurst) {
        if !c.controlIncrease || tSeqno > prevHighestAck + Trunc(Win()) {
          OpenCwnd();
        }
      }
      if ect {
        if !ack.ecnecho {
          ecnBackoff := false;
        }
        if !ecnBurst && ack.ecnecho {
          ecnBurst := true;
        } else if ecnBurst && !ack.ecnecho {
          ecnBurst := false;
        }
      }
      if !ect && ack.ecnecho && !ack.congAction {
        ect := true;
      }
    }

    /** Where new data has to stop: the window, or in fast recovery what is advertised. */
    function NewDataLimit(): int
      reads this
    {
      highestAck + (if fastrecov then Trunc(c.wnd) else Trunc(Win())) + 1
    }

    /** Sends while the window and the application allow. With nothing to
        retransmit, exactly the packets from `tSeqno` on go out, in order, and
        outside fast recovery until the window or the application's data ends. */
    method SendMuch(o: Oracle)
      requires Valid() && forall x | x in o.retransmit :: 0 <= x <= maxseq
      modifies this`curseq, this`congAction, this`dctcpMaxseq, this`maxseq, this`sent, this`tSeqno, this`pipe
      modifies this`timer
      ensures Valid() && old(maxseq) <= maxseq && SameBackoff(timer, old(timer))
      ensures SentSince(old(sent), sent, old(tSeqno), tSeqno, o.retransmit)
      ensures pipe == old(pipe) + |sent| - |old(sent)|
      ensures o.retransmit == [] && old(tSeqno >= curseq) ==> sent == old(sent) && maxseq == old(maxseq)
      ensures SendsTo(o.retransmit, c.syn, NewDataLimit(), old(tSeqno), tSeqno,
                      old(curseq), curseq, old(maxseq), maxseq)
      ensures o.retransmit == [] && (c.maxburst == 0 || tSeqno == old(tSeqno)) ==> Stuck()
      ensures o.retransmit != [] && old(MayRetransmit(o.retransmit[0])) ==>
                StartsWith(old(sent), sent, o.retransmit[0])
    {
      hide SentExactly, OncePerWindow, LastTop, Sane, Trunc, SentSince, PacketFor, SeqnosOf, Range, SendsTo, Sending;
      ghost var was, limit := Now(), NewDataLimit();
      SendingNothing(was, o.retransmit, c.syn, limit);
      SendLoop(o, was, limit);
      SendingMeans(was, Now(), o.retransmit, c.syn, limit);
    }

    /** Whether the window, or in fast recovery the pipe, lets anything go. */
    predicate Room()
      reads this
    {
      (if fastrecov then pipe < Trunc(cwnd) else tSeqno <= lastAck + Trunc(Win())) && lastAck + 1 < curseq
    }

    /** Whether packet `x` may be retransmitted now. */
    predicate MayRetransmit(x: int)
      reads this
    {
      Room() && recover > 0 && x <= highestAck + Trunc(c.wnd)
    }

    /** Whether no new data may go. */
    predicate Stuck()
      reads this
    {
      !Room() || tSeqno >= curseq || (fastrecov && tSeqno > highestAck + Trunc(c.wnd))
    }

    /** The sending loop. */
    method SendLoop(o: Oracle, ghost was: Snapshot, ghost limit: int)
      requires Valid() && was == Now() && limit == NewDataLimit()
      requires Sending(was, was, o.retransmit, c.syn, limit)
      requires forall x | x in o.retransmit :: 0 <= x <= maxseq
      modifies this`curseq, this`congAction, this`dctcpMaxseq, this`maxseq, this`sent, this`tSeqno, this`pipe
      modifies this`timer
      ensures Valid() && Sending(was, Now(), o.retransmit, c.syn, limit)
      ensures o.retransmit == [] && was.tSeqno >= was.curseq ==> |sent| == |was.sent|
      ensures o.retransmit == [] && (c.maxburst == 0 || |sent| == |was.sent|) ==> Stuck()
      ensures o.retransmit != [] && old(MayRetransmit(o.retransmit[0])) ==>
                StartsWith(was.sent, sent, o.retransmit[0])
    {
      hide SentExactly, OncePerWindow, LastTop, Sane, Trunc, SentSince, PacketFor, SeqnosOf, Range, SendsTo, Sending;
      hide StartsWith;
      WindowWithinAdvertised();
      ghost var first := o.retransmit != [] && MayRetransmit(o.retransmit[0]);
      var found, npacket, k := true, 0, 0;
      var win := Trunc(Win());
      while ((!fastrecov && tSeqno <= lastAck + win) || (fastrecov && pipe < Trunc(cwnd)))
            && lastAck + 1 < curseq && found
        invariant Valid() && old(maxseq) <= maxseq && Sending(was, Now(), o.retransmit, c.syn, limit)
        invariant 0 <= k <= |o.retransmit| && win == Trunc(Win()) && |sent| == |was.sent| + npacket
        invariant o.retransmit == [] && !found ==> Stuck()
        invariant first ==> (k == 0 && Now() == was && found) ||
                            StartsWith(was.sent, sent, o.retransmit[0])
        invariant o.retransmit == [] && was.tSeqno >= was.curseq ==> npacket == 0 && tSeqno >= curseq
        decreases |o.retransmit| - k, if maxseq == -1 then 1 else 0, curseq - tSeqno, found
      {
        var next := -1;
        if k < |o.retransmit| {
          next := o.retransmit[k];
          assert next in o.retransmit;
          k := k + 1;
        }
        ghost var before := sent;
        found := SendNext(next, win, was, o.retransmit, limit);
        if found && next != -1 {
          win := Trunc(Win());
        }
        if found {
          if first {
            StartsWithNext(was.sent, before, sent[|before|], o.retransmit[0]);
          }
          npacket := npacket + 1;
        }
        if c.maxburst != 0 && npacket == c.maxburst {
          break;
        }
      }
    }

    ghost function Now(): Snapshot
      reads this
    {
      Snapshot(sent, tSeqno, curseq, maxseq, pipe, timer)
    }

    /** One round of the sending loop: chooses a packet and sends it. */
    method SendNext(next: int, win: int, ghost was: Snapshot, ghost named: seq<int>, ghost limit: int)
      returns (found: bool)
      requires Valid() && -1 <= next <= maxseq && win == Trunc(Win()) && limit == NewDataLimit()
      requires Sending(was, Now(), named, c.syn, limit) && (next == -1 || next in named) && (named == [] ==> next == -1)
      modifies this`curseq, this`congAction, this`dctcpMaxseq, this`maxseq, this`sent, this`tSeqno, this`pipe
      modifies this`timer
      ensures Valid() && Sending(was, Now(), named, c.syn, limit) && old(maxseq) <= maxseq
      ensures !found ==> Now() == old(Now())
      ensures found ==> sent == old(sent) + [old(PacketFor(if next == -1 then tSeqno else next))]
      ensures found ==> tSeqno == Max(old(tSeqno), (if next == -1 then old(tSeqno) else next) + 1)
      ensures curseq == old(curseq) || (old(maxseq) == -1 && 0 <= maxseq && curseq == old(curseq) + 1)
      ensures next == -1 ==>
                (found <==> old(tSeqno < curseq) && old(tSeqno) <= highestAck + if fastrecov then Trunc(c.wnd) else win)
      ensures next != -1 ==> (found <==> recover > 0 && next <= highestAck + Trunc(c.wnd))
    {
      hide SentExactly, OncePerWindow, LastTop, Sane, Trunc, SentSince, PacketFor, SeqnosOf, Range, SendsTo, Sending;
      WindowWithinAdvertised();
      var xmit;
      found, xmit := Choose(next, win);
      if found {
        Transmit(xmit, was, named, limit);
      }
    }

    lemma WindowWithinAdvertised()
      requires 1.0 <= cwnd && 1.0 <= c.wnd
      ensures 0 <= Trunc(Win()) <= Trunc(c.wnd)
    {
      TruncMonotone(Win(), c.wnd);
    }

    /** What the sending loop sends next, if anything: the packet the scoreboard
        names, or new data if the window and the application have some. */
    method Choose(next: int, win: int) returns (found: bool, xmit: int)
      requires -1 <= next <= maxseq && win <= Trunc(c.wnd)
      ensures found ==> xmit == (if next == -1 then tSeqno else next) && xmit <= highestAck + Trunc(c.wnd)
      ensures next == -1 ==>
                (found <==> tSeqno < curseq && tSeqno <= highestAck + if fastrecov then Trunc(c.wnd) else win)
      ensures next != -1 ==> (found <==> recover > 0 && next <= highestAck + Trunc(c.wnd))
    {
      hide Trunc;
      found, xmit := false, next;
      if xmit == -1 {
        if (!fastrecov && tSeqno <= highestAck + win) || (fastrecov && tSeqno <= highestAck + Trunc(c.wnd)) {
          if tSeqno < curseq {
            found := true;
            xmit := tSeqno;
          }
        }
      } else if recover > 0 && xmit <= highestAck + Trunc(c.wnd) {
        found := true;
      }
    }

    /** One packet of the sending loop. */
    method Transmit(xmit: int, ghost was: Snapshot, ghost named: seq<int>, ghost limit: int)
      requires Valid() && 0 <= xmit <= maxseq + 1 && xmit <= highestAck + Trunc(c.wnd)
      requires Sending(was, Now(), named, c.syn, limit)
      requires xmit in named || xmit == tSeqno
      requires named == [] ==> xmit == tSeqno && xmit < curseq && xmit < limit
      requires xmit <= maxseq || xmit < curseq
      modifies this`curseq, this`congAction, this`dctcpMaxseq, this`maxseq, this`sent, this`tSeqno, this`pipe
      modifies this`timer
      ensures Valid() && maxseq == Max(old(maxseq), xmit) && tSeqno == Max(old(tSeqno), xmit + 1)
      ensures sent == old(sent) + [old(PacketFor(xmit))]
      ensures curseq == old(curseq) + if c.syn && xmit == 0 && old(maxseq) == -1 then 1 else 0
      ensures Sending(was, Now(), named, c.syn, limit)
    {
      hide SentExactly, OncePerWindow, LastTop, Sane, Trunc, SentSince, PacketFor, Sending, SendsTo;
      ghost var now, p := Now(), PacketFor(xmit);
      Output(xmit);
      if tSeqno <= xmit {
        tSeqno := xmit + 1;
      }
      pipe := pipe + 1;
      SendingNext(was, now, Now(), p, named, c.syn, limit);
    }

    /** Limited transmit: the next new packet is within the advertised window and within
        the congestion window and one packet for each duplicate. */
    predicate MaySendOne(duplicates: int)
      reads this
    {
      tSeqno as real <= highestAck as real + c.wnd && tSeqno < curseq &&
      tSeqno as real <= highestAck as real + cwnd + duplicates as real
    }

    /** Limited transmit on a first or second duplicate. */
    method SendOne()
      requires Valid()
      modifies this`curseq, this`congAction, this`dctcpMaxseq, this`maxseq, this`sent, this`tSeqno, this`timer
      ensures Valid() && old(maxseq) <= maxseq && old(sent) <= sent
      ensures SentSince(old(sent), sent, old(tSeqno), tSeqno, [])
      ensures tSeqno == old(tSeqno) + if old(MaySendOne(dupacks)) then 1 else 0
    {
      SentNothing(sent, tSeqno, []);
      if tSeqno as real <= highestAck as real + c.wnd && tSeqno < curseq &&
         tSeqno as real <= highestAck as real + cwnd + dupacks as real {
        SentNext(sent, sent, PacketFor(tSeqno), tSeqno, tSeqno, []);
        Output(tSeqno);
        tSeqno := tSeqno + 1;
      }
    }

    /** The packets taken to be in flight, with `top` the highest one sent. */
    function PipeFor(byWindow: bool, top: int, window: real): int
      requires 0 < c.numdupacksFrac
      reads this
    {
      if byWindow then Trunc(window) - NumDupacksAt(window)
      else top - highestAck - (if c.singledup && c.limTransmitFix then 1 else NumDupacksAt(window))
    }

    method SetPipe(byWindow: bool)
      requires 0 < c.numdupacksFrac
      modifies this`pipe
      ensures pipe == PipeFor(byWindow, maxseq, cwnd)
    {
      if byWindow {
        pipe := Trunc(cwnd) - NumDupacks();
      } else if c.singledup && c.limTransmitFix {
        pipe := maxseq - highestAck - 1;
      } else {
        pipe := maxseq - highestAck - NumDupacks();
      }
    }

    /** Whether the last duplicate starts a new recovery: not while the packets of
        the previous one are outstanding, unless configured so. */
    predicate StartsAnew()
      reads this
    {
      highestAck > recover || (!c.bugFix && !c.ecn) || (c.bugfixSs && highestAck == 0) ||
      (!c.bugFix && lastAction != EcnAction)
    }

    /** Whether it continues the window that was last cut for ECN. */
    predicate FollowsEcn()
      reads this
    {
      !StartsAnew() && c.ecn && lastAction == EcnAction
    }

    predicate CutsForRecovery()
      reads this
    {
      StartsAnew() || (FollowsEcn() && c.dctcp)
    }

    /** Retransmits the first packet not acknowledged and enters fast recovery. */
    method StartRecovery()
      requires Valid() && !fastrecov && highestAck <= recover
      modifies this`fastrecov, this`curseq, this`congAction, this`dctcpMaxseq, this`maxseq, this`sent, this`timer
      ensures SameBackoff(timer, old(timer))
      ensures Valid() && fastrecov && maxseq == Max(old(maxseq), lastAck + 1)
      ensures old(sent) <= sent && SeqnosOf(sent[|old(sent)|..]) == [lastAck + 1]
    {
      hide SentExactly, OncePerWindow, LastTop, Sane;
      assert 1 <= Trunc(c.wnd);
      timer := timer.(active := false);
      fastrecov := true;
      Output(lastAck + 1);
    }

    /** The last duplicate has arrived: perhaps enter fast recovery. */
    method EnterRecovery()
      requires Valid() && !fastrecov
      modifies this`lastAction, this`fastrecov, this`recover, this`pipe, this`curseq, this`congAction
      modifies this`dctcpMaxseq, this`maxseq, this`sent, this`cwnd, this`ssthresh, this`count, this`firstDecrease
      modifies this`timer
      ensures SameBackoff(timer, old(timer))
      ensures Valid() && old(maxseq) <= maxseq && old(sent) <= sent
      ensures fastrecov == old(StartsAnew() || FollowsEcn())
      ensures recover == if old(StartsAnew()) then old(maxseq) else old(recover)
      ensures SeqnosOf(sent[|old(sent)|..]) == if fastrecov then [lastAck + 1] else []
      ensures lastAction == if fastrecov then DupackAction else old(lastAction)
      ensures pipe == if old(StartsAnew()) then PipeFor(c.oldCode, old(maxseq), old(cwnd))
                      else if fastrecov then PipeFor(false, old(maxseq), cwnd) else old(pipe)
      ensures View() == if old(CutsForRecovery()) then old(CutTo(HalfCut, false)) else old(View())
    {
      hide Slowdown, SentExactly, OncePerWindow, LastTop, Sane, Trunc, SeqnosOf, NumDupacksAt, CutTo;
      var recovered := highestAck > recover;
      if !(recovered || (!c.bugFix && !c.ecn) || (c.bugfixSs && highestAck == 0)) {
        if c.ecn && lastAction == EcnAction {
          RecoverAgain();
          return;
        }
        if c.bugFix {
          assert sent[|sent|..] == [];
          return;
        }
      }
      RecoverAnew();
    }

    /** The window was last cut for ECN: with DCTCP it is cut once more. */
    method RecoverAgain()
      requires Valid() && !fastrecov && highestAck <= recover
      modifies this`lastAction, this`fastrecov, this`pipe, this`curseq, this`congAction, this`timer
      modifies this`dctcpMaxseq, this`maxseq, this`sent, this`cwnd, this`ssthresh, this`count, this`firstDecrease
      ensures Valid() && fastrecov && lastAction == DupackAction && maxseq == Max(old(maxseq), lastAck + 1)
      ensures old(sent) <= sent && SeqnosOf(sent[|old(sent)|..]) == [lastAck + 1] && SameBackoff(timer, old(timer))
      ensures pipe == PipeFor(false, old(maxseq), cwnd)
      ensures View() == if c.dctcp then old(CutTo(HalfCut, false)) else old(View())
    {
      hide Slowdown, SentExactly, OncePerWindow, LastTop, Sane, Trunc, NumDupacksAt, SeqnosOf;
      lastAction := DupackAction;
      if c.dctcp {
        CutWindow(HalfCut);
      }
      SetPipe(false);
      StartRecovery();
    }

    /** A new recovery, with a new recovery point. */
    method RecoverAnew()
      requires Valid() && !fastrecov
      modifies this`lastAction, this`fastrecov, this`recover, this`pipe, this`curseq, this`congAction, this`timer
      modifies this`dctcpMaxseq, this`maxseq, this`sent, this`cwnd, this`ssthresh, this`count, this`firstDecrease
      ensures Valid() && fastrecov && lastAction == DupackAction && maxseq == Max(old(maxseq), lastAck + 1)
      ensures old(sent) <= sent && SeqnosOf(sent[|old(sent)|..]) == [lastAck + 1] && SameBackoff(timer, old(timer))
      ensures recover == old(maxseq) && pipe == PipeFor(c.oldCode, old(maxseq), old(cwnd))
      ensures View() == old(CutTo(HalfCut, false))
    {
      hide Slowdown, SentExactly, OncePerWindow, LastTop, Sane, Trunc, NumDupacksAt, SeqnosOf, CutTo;
      CutAnew();
      StartRecovery();
    }

    method CutAnew()
      requires Valid() && !fastrecov
      modifies this`lastAction, this`recover, this`pipe
      modifies this`cwnd, this`ssthresh, this`count, this`firstDecrease, this`congAction
      ensures Valid() && lastAction == DupackAction && recover == maxseq
      ensures pipe == PipeFor(c.oldCode, maxseq, old(cwnd))
      ensures View() == old(CutTo(HalfCut, false))
    {
      hide Slowdown, SentExactly, OncePerWindow, LastTop, Sane, Trunc, NumDupacksAt;
      recover := maxseq;
      SetPipe(c.oldCode);
      lastAction := DupackAction;
      CutWindow(HalfCut);
    }

    /** Whether an acknowledgement cuts the window for ECN. */
    predicate CutsFor(ack: AckIn)
      reads this
    {
      ack.ecnecho && c.ecn && (ack.seqno > recover || lastAction == TimeoutAction)
    }

    /** The estimator after an acknowledgement. */
    function DctcpAfter(ack: AckIn): DctcpControl.Estimator
      reads this
    {
      if c.dctcp then OnAck(Dctcp(), c.g, AckInfo(ack.seqno, ack.ecnecho, highestAck, dctcpMaxseq)) else Dctcp()
    }

    /** The window after what an acknowledgement says about congestion. */
    function AfterEcho(ack: AckIn): Window
      reads this
    {
      if !CutsFor(ack) then View()
      else Slowdown(View(), CutConfig(DctcpAfter(ack).alpha, c.wndRestart, c.decreaseNum, c.precision),
                    if c.dctcp then DctcpCut else HalfCut, firstDecrease, false)
    }

    /** What an acknowledgement says about congestion. */
    method ReadEcho(ack: AckIn, below: bool)
      requires Valid()
      modifies this`recover, this`lastAction, this`ecnBackoff, this`cuts, this`timer
      modifies this`cwnd, this`ssthresh, this`count, this`firstDecrease, this`congAction
      modifies this`dctcpTotal, this`dctcpMarked, this`dctcpAlphaUpdateSeq, this`dctcpAlpha
      ensures Valid() && Dctcp() == old(DctcpAfter(ack)) && View() == old(AfterEcho(ack))
      ensures recover == (if old(CutsFor(ack)) then maxseq else old(recover))
      ensures CutBy(old(cuts), cuts, old(CutsFor(ack)), old(CutNow(ack.seqno)))
    {
      hide SentExactly, OncePerWindow, LastTop, Sane, OnAck, Slowdown;
      if c.dctcp {
        UpdateDctcpAlpha(ack.seqno, ack.ecnecho);
      }
      if ack.ecnecho && c.ecn {
        Ecn(ack.seqno, below);
      }
    }

    /** Whether an acknowledgement is the first to answer for everything sent. */
    predicate Finishes(ack: AckIn)
      reads this
    {
      ack.seqno == maxseq && (fastrecov || ack.seqno > lastAck)
    }

    /** An acknowledgement arrives. The window is cut at most once for each window of
        data: between two cuts, short of a timeout, everything sent before the first
        is acknowledged. */
    method Recv(ack: AckIn, o: Oracle)
      requires Valid() && -1 <= ack.seqno <= maxseq
      requires forall x | x in o.retransmit :: 0 <= x <= maxseq
      modifies this
      ensures Valid() && old(maxseq) <= maxseq && old(sent) <= sent
      ensures highestAck == Max(old(highestAck), ack.seqno) && Dctcp() == old(DctcpAfter(ack))
      ensures CutBy(old(cuts), cuts, old(CutsFor(ack)), old(CutNow(ack.seqno)))
      ensures old(fastrecov) || ack.seqno < old(lastAck) ==> View() == old(AfterEcho(ack))
      ensures !old(fastrecov) && ack.seqno > old(lastAck) ==>
                Grown(old(AfterEcho(ack)), View())
      ensures !old(fastrecov) ==> lastAck == Max(old(lastAck), ack.seqno)
      ensures !old(fastrecov) && fastrecov ==> ack.seqno == old(lastAck)
      ensures old(fastrecov) && fastrecov ==> lastAck == old(lastAck)
      ensures old(Finishes(ack)) ==> !fastrecov
      ensures old(Finishes(ack)) && o.retransmit == [] ==>
                Continues(old(sent), sent, old(curseq), curseq, old(maxseq), maxseq)
      ensures old(fastrecov) && !fastrecov ==> lastAck == ack.seqno && old(recover) <= ack.seqno
    {
      hide SentExactly, OncePerWindow, LastTop, Sane, OnAck, AfterEcho, DctcpAfter, CutsFor;
      ReadEcho(ack, o.below);
      Respond(ack, o);
    }

    /** Whether an acknowledgement in fast recovery frees a place in the pipe for a
        retransmission. */
    predicate Retransmits(ack: AckIn, o: Oracle)
      reads this
    {
      && fastrecov && 0 < recover && lastAck + 1 < curseq && lastAck <= ack.seqno < recover
      && pipe - 1 < Trunc(cwnd) && o.retransmit != [] && o.retransmit[0] <= highestAck + Trunc(c.wnd)
    }

    /** What an acknowledgement means for recovery, and what may be sent for it. */
    method Respond(ack: AckIn, o: Oracle)
      requires Valid() && -1 <= ack.seqno <= maxseq
      requires forall x | x in o.retransmit :: 0 <= x <= maxseq
      modifies this`dupacks, this`lastAck, this`highestAck, this`tSeqno, this`timedOut, this`lastAction
      modifies this`fastrecov, this`recover, this`pipe, this`curseq, this`dctcpMaxseq, this`maxseq, this`sent
      modifies this`cwnd, this`ssthresh, this`count, this`firstDecrease, this`congAction
      modifies this`timer, this`ecnBackoff, this`ecnBurst, this`ect, this`prevHighestAck
      ensures Valid() && old(maxseq) <= maxseq && old(sent) <= sent
      ensures highestAck == Max(old(highestAck), ack.seqno)
      ensures old(fastrecov) || ack.seqno < old(lastAck) ==> View() == old(View())
      ensures !old(fastrecov) && ack.seqno > old(lastAck) ==> Grown(old(View()), View())
      ensures !old(fastrecov) ==> lastAck == Max(old(lastAck), ack.seqno)
      ensures !old(fastrecov) && fastrecov ==> ack.seqno == old(lastAck)
      ensures old(Finishes(ack)) ==> !fastrecov
      ensures old(Finishes(ack)) && o.retransmit == [] ==>
                Continues(old(sent), sent, old(curseq), curseq, old(maxseq), maxseq)
      ensures ack.seqno > old(lastAck) && o.retransmit == [] && c.maxburst == 0 ==> Stuck()
      ensures old(fastrecov) && ack.seqno == old(lastAck) && o.retransmit == [] && c.maxburst == 0 ==> Stuck()
      ensures old(Retransmits(ack, o)) ==> StartsWith(old(sent), sent, o.retransmit[0])
      ensures old(fastrecov) ==> fastrecov == (ack.seqno < old(recover))
      ensures old(fastrecov) ==> lastAck == if fastrecov then old(lastAck) else ack.seqno
    {
      hide SentExactly, OncePerWindow, LastTop, Sane, Trunc, StartsAnew, FollowsEcn, NumDupacksAt, Range, SeqnosOf;
      var validAck := ack.seqno >= lastAck;
      if !fastrecov {
        RecvNormal(ack, o);
        if (validAck || c.aggressiveMaxburst) && dupacks == 0 {
          SendMore(o);
        }
      } else {
        RecvInRecovery(ack, o);
        if validAck || c.aggressiveMaxburst {
          SendMore(o);
        }
      }
    }

    /** The sending that follows an acknowledgement. With everything acknowledged some
        more goes out, if there is more. */
    method SendMore(o: Oracle)
      requires Valid() && forall x | x in o.retransmit :: 0 <= x <= maxseq
      modifies this`curseq, this`congAction, this`dctcpMaxseq, this`maxseq, this`sent, this`tSeqno, this`pipe
      modifies this`timer
      ensures Valid() && old(maxseq) <= maxseq && old(sent) <= sent
      ensures o.retransmit == [] && !fastrecov && 0 <= lastAck == old(maxseq) ==>
                Continues(old(sent), sent, old(curseq), curseq, old(maxseq), maxseq)
      ensures o.retransmit == [] && c.maxburst == 0 ==> Stuck()
      ensures o.retransmit != [] && old(MayRetransmit(o.retransmit[0])) ==>
                StartsWith(old(sent), sent, o.retransmit[0])
    {
      hide SentExactly, OncePerWindow, LastTop, Sane, Trunc, SeqnosOf, Range;
      AtLeastOnePacket();
      SendMuch(o);
    }

    lemma AtLeastOnePacket()
      requires Valid()
      ensures 1 <= Trunc(Win())
    {}

    /** The branch outside fast recovery. */
    method RecvNormal(ack: AckIn, o: Oracle)
      requires Valid() && !fastrecov && -1 <= ack.seqno <= maxseq
      modifies this`dupacks, this`lastAck, this`highestAck, this`tSeqno, this`timedOut, this`lastAction
      modifies this`fastrecov, this`recover, this`pipe, this`curseq, this`dctcpMaxseq, this`maxseq, this`sent
      modifies this`cwnd, this`ssthresh, this`count, this`firstDecrease, this`congAction
      modifies this`timer, this`ecnBackoff, this`ecnBurst, this`ect, this`prevHighestAck
      ensures Valid() && old(maxseq) <= maxseq && old(sent) <= sent
      ensures highestAck == lastAck == Max(old(lastAck), ack.seqno)
      ensures ack.seqno > old(lastAck) ==>
                && dupacks == 0 && !timedOut && sent == old(sent) && maxseq == old(maxseq) && curseq == old(curseq)
                && !fastrecov && Grown(old(View()), View())
                && timer == AfterSample(old(timer), ack.seqno, o.ticks, old(HoldsBackoff(ack.ecnecho)))
                && (old(ect) && ack.ecnecho && !(c.oldEcn && old(ecnBurst)) ==> View() == old(View()))
      ensures ack.seqno < old(lastAck) || (ack.seqno == old(lastAck) && (old(timedOut) || !o.updated)) ==>
                dupacks == old(dupacks) && sent == old(sent) && !fastrecov && View() == old(View())
      ensures ack.seqno == old(lastAck) && !old(timedOut) && o.updated ==>
                && dupacks == old(dupacks) + 1
                && fastrecov == (dupacks == NumDupacksAt(old(cwnd)) && old(StartsAnew() || FollowsEcn()))
                && View() == if dupacks == NumDupacksAt(old(cwnd)) && old(CutsForRecovery())
                             then old(CutTo(HalfCut, false)) else old(View())
    {
      hide SentExactly, OncePerWindow, LastTop, Sane, Trunc, AfterSample, CutTo;
      if ack.seqno > lastAck {
        NewAck(ack, o.ticks);
        GrowAndNegotiate(ack);
        timedOut := false;
      } else if ack.seqno < lastAck {
      } else if !timedOut {
        if o.updated {
          Duplicate();
        }
      }
    }

    /** One more duplicate acknowledgement. */
    method Duplicate()
      requires Valid() && !fastrecov
      modifies this`dupacks, this`tSeqno, this`lastAction, this`timer
      modifies this`fastrecov, this`recover, this`pipe, this`curseq, this`dctcpMaxseq, this`maxseq, this`sent
      modifies this`cwnd, this`ssthresh, this`count, this`firstDecrease, this`congAction
      ensures Valid() && old(maxseq) <= maxseq && old(sent) <= sent && dupacks == old(dupacks) + 1
      ensures fastrecov == (dupacks == NumDupacksAt(old(cwnd)) && old(StartsAnew() || FollowsEcn()))
      ensures View() == if dupacks == NumDupacksAt(old(cwnd)) && old(CutsForRecovery())
                        then old(CutTo(HalfCut, false)) else old(View())
      ensures |sent| <= |old(sent)| + 1
      ensures dupacks < NumDupacksAt(old(cwnd)) ==>
                tSeqno == old(tSeqno) + if c.singledup && old(MaySendOne(dupacks + 1)) then 1 else 0
    {
      hide SentExactly, OncePerWindow, LastTop, Sane, Trunc, NumDupacksAt, Slowdown;
      dupacks := dupacks + 1;
      if dupacks == NumDupacks() {
        EnterRecovery();
      } else if dupacks < NumDupacks() && c.singledup {
        SendOne();
      }
    }

    /** The branch inside fast recovery. */
    method RecvInRecovery(ack: AckIn, o: Oracle)
      requires Valid() && fastrecov && -1 <= ack.seqno <= maxseq
      modifies this`pipe, this`recover, this`fastrecov, this`dupacks, this`lastAck, this`highestAck
      modifies this`tSeqno, this`timedOut, this`timer, this`ecnBackoff, this`prevHighestAck
      ensures Valid()
      ensures highestAck == Max(old(highestAck), ack.seqno)
      ensures fastrecov == (ack.seqno < old(recover)) && recover == (if fastrecov then old(recover) else 0)
      ensures pipe == old(pipe) - if fastrecov && ack.seqno > old(highestAck) then 2 else 1
      ensures lastAck == if fastrecov then old(lastAck) else ack.seqno
      ensures dupacks == if !fastrecov then 0
                         else if ack.seqno <= old(highestAck) && !old(timedOut) && o.updated && 0 < old(dupacks)
                         then old(dupacks) + 1 else old(dupacks)
      ensures timer == if !fastrecov then
                         AfterSample(old(timer), ack.seqno, o.ticks, old(HoldsBackoff(ack.ecnecho)))
                       else if ack.seqno > old(highestAck) then old(timer).(backoff := 1) else old(timer)
    {
      hide AfterSample, SentExactly, OncePerWindow, LastTop, Sane, Trunc;
      pipe := pipe - 1;
      if ack.seqno >= recover {
        LeaveRecovery(ack, o.ticks);
      } else if ack.seqno > highestAck {
        highestAck := ack.seqno;
        pipe := pipe - 1;
        timer := timer.(backoff := 1);
      } else if !timedOut {
        if o.updated {
          if dupacks > 0 {
            dupacks := dupacks + 1;
          }
        }
      }
    }

    /** The recovery point has been acknowledged. */
    method LeaveRecovery(ack: AckIn, ticks: int)
      requires Valid() && fastrecov && recover <= ack.seqno <= maxseq
      modifies this`recover, this`fastrecov, this`dupacks, this`lastAck, this`highestAck
      modifies this`tSeqno, this`timedOut, this`timer, this`ecnBackoff, this`prevHighestAck
      ensures Valid() && !fastrecov && recover == 0 && lastAck == highestAck == ack.seqno && dupacks == 0
      ensures timer == AfterSample(old(timer), ack.seqno, ticks, old(HoldsBackoff(ack.ecnecho)))
    {
      hide AfterSample, SentExactly, OncePerWindow, LastTop, Sane, Trunc;
      recover := 0;
      fastrecov := false;
      NewAck(ack, ticks);
      timedOut := false;
    }

    /** Leaves fast recovery, forgets duplicates and goes back to the first packet
        not acknowledged. The source moves `t_seqno_` a little later, after a window
        cut that does not read it. */
    method ResetForTimeout()
      requires Valid()
      modifies this`dctcpAlphaUpdateSeq, this`dctcpMaxseq, this`dupacks, this`fastrecov
      modifies this`timedOut, this`lastAck, this`recover, this`tSeqno
      ensures Valid() && lastAck == highestAck && !fastrecov && timedOut && recover == maxseq
      ensures tSeqno == highestAck + 1 && dupacks == 0
      ensures dctcpAlphaUpdateSeq == dctcpMaxseq == old(tSeqno)
    {
      hide SentExactly, OncePerWindow, LastTop;
      dctcpAlphaUpdateSeq := tSeqno;
      dctcpMaxseq := dctcpAlphaUpdateSeq;
      dupacks := 0;
      fastrecov := false;
      timedOut := true;
      if highestAck > lastAck {
        lastAck := highestAck;
      }
      recover := maxseq;
      tSeqno := highestAck + 1;
    }

    /** Whether a timeout leaves the window alone: nothing is outstanding and an idle
        sender does not restart slowly. */
    predicate Idle()
      reads this
    {
      highestAck == maxseq && !c.slowStartRestart
    }

    /** The cut of a timeout: to one packet without touching the threshold when
        nothing is outstanding or the window was last cut for ECN, otherwise a
        restart. */
    function TimeoutKind(): Cut
      reads this
    {
      if (if highestAck == maxseq then c.restartBugfix else lastAction == EcnAction) then OneCut else RestartCut
    }

    function AfterTimeout(): Window
      reads this
    {
      if Idle() then View() else CutTo(TimeoutKind(), true)
    }

    /** The window cut of a timeout. The window is never below one packet here, so
        the source's repair of a smaller one has nothing to do. */
    method TimeoutCut()
      requires Valid() && recover == maxseq
      modifies this`lastAction, this`cwnd, this`ssthresh, this`count, this`firstDecrease, this`congAction
      ensures Valid() && View() == old(AfterTimeout())
      ensures congAction == (old(congAction) || !old(Idle()))
    {
      hide SentExactly, OncePerWindow, LastTop, Sane, HalfWin, DecreaseWin, Scaled, Trunc;
      if highestAck == maxseq && !c.slowStartRestart {
      } else {
        if highestAck == maxseq && c.restartBugfix {
          CutWindow(OneCut);
        } else if highestAck < recover && lastAction == EcnAction {
          CutWindow(OneCut);
        } else {
          lastAction := TimeoutAction;
          CutWindow(RestartCut);
        }
      }
    }

    /** The timer backs off, unless nothing is outstanding, and times no packet. */
    method ResetTimer(below: bool)
      modifies this`timer
      ensures var idle := highestAck == maxseq && c.restartBugfix;
              timer == (if idle then old(timer) else BackOff(old(timer), below)).(active := false)
    {
      hide BackOff;
      if highestAck == maxseq && c.restartBugfix {
      } else {
        timer := BackOff(timer, below);
      }
      timer := timer.(active := false);
    }

    /** The retransmission timer fires: it is backed off unless nothing is
        outstanding, and sending resumes right above the highest acknowledgement. */
    method Timeout(o: Oracle)
      requires Valid() && forall x | x in o.retransmit :: 0 <= x <= maxseq
      modifies this
      ensures Valid() && old(maxseq) <= maxseq && old(sent) <= sent
      ensures highestAck == old(highestAck) && lastAck == highestAck && !fastrecov && timedOut && cuts == old(cuts)
      ensures lastAction == TimeoutAction && recover == old(maxseq) && View() == old(AfterTimeout())
      ensures SentSince(old(sent), sent, highestAck + 1, tSeqno, o.retransmit)
      ensures o.retransmit == [] && highestAck + 1 < old(curseq) ==> highestAck + 1 < tSeqno
      ensures o.retransmit == [] && c.maxburst == 0 ==> Stuck()
      ensures var idle := highestAck == old(maxseq) && c.restartBugfix;
              var t := if idle then old(timer) else BackOff(old(timer), o.below);
              SameBackoff(timer, t)
    {
      hide SentExactly, OncePerWindow, LastTop, Sane, AfterTimeout, BackOff, Trunc;
      BeforeResending(o.below);
      AtLeastOnePacket();
      SendMuch(o);
    }

    /** All a timeout does before it sends. */
    method BeforeResending(below: bool)
      requires Valid()
      modifies this
      ensures Valid() && sent == old(sent) && maxseq == old(maxseq) && curseq == old(curseq) && cuts == old(cuts)
      ensures highestAck == old(highestAck) && lastAck == highestAck && !fastrecov && timedOut
      ensures lastAction == TimeoutAction && recover == maxseq && tSeqno == highestAck + 1
      ensures View() == old(AfterTimeout())
      ensures var idle := highestAck == maxseq && c.restartBugfix;
              timer == (if idle then old(timer) else BackOff(old(timer), below)).(active := false)
    {
      hide SentExactly, OncePerWindow, LastTop, Sane, Slowdown, BackOff, Trunc;
      ResetForTimeout();
      TimeoutCut();
      ResetTimer(below);
      lastAction := TimeoutAction;
    }

    /** The application produces `delta` more packets. They, and the SYN packet on the
        first send, are what there is to send; with nothing to retransmit, outside fast
        recovery, packets go out in order, at least one if there is data and room, and
        without a burst limit exactly until the window or the data ends. */
    method AdvanceBy(delta: int, o: Oracle)
      requires Valid() && forall x | x in o.retransmit :: 0 <= x <= maxseq
      modifies this`curseq, this`congAction, this`dctcpMaxseq, this`maxseq, this`sent, this`tSeqno, this`pipe
      modifies this`timer
      ensures Valid() && old(maxseq) <= maxseq && old(sent) <= sent
      ensures curseq == old(curseq) + delta + if c.syn && old(maxseq) == -1 && 0 <= maxseq then 1 else 0
      ensures maxseq <= Max(old(maxseq), curseq - 1)
      ensures o.retransmit == [] && old(tSeqno) >= old(curseq) + delta ==> sent == old(sent) && maxseq == old(maxseq)
      ensures o.retransmit == [] ==> SeqnosOf(sent[|old(sent)|..]) == Range(old(tSeqno), tSeqno)
      ensures o.retransmit == [] && !fastrecov && old(tSeqno) < old(curseq) + delta ==>
                old(tSeqno) <= lastAck + Trunc(Win()) ==> old(tSeqno) < tSeqno
      ensures o.retransmit == [] && !fastrecov && c.maxburst == 0 ==>
                tSeqno == Max(old(tSeqno), Min(lastAck + Trunc(Win()) + 1, curseq))
    {
      hide SentExactly, OncePerWindow, LastTop, Sane, Trunc, SeqnosOf, Range;
      curseq := curseq + delta;
      SendMuch(o);
    }
  }
}
