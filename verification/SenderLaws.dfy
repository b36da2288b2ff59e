/** What the decisions of the sender come to, in terms of its fields: when the window is
    cut and by which cut, when recovery starts, when the window may grow, how many
    duplicates it takes, and what the timer does. */
module SenderLaws {
  import opened Arith
  import opened DctcpControl
  import opened CutLaws
  import opened RttEstimation
  import opened Senders

  ghost function ConfigWith(a: Sack1TcpAgent, alpha: real): CutConfig
    reads a
  {
    CutConfig(alpha, a.c.wndRestart, a.c.decreaseNum, a.c.precision)
  }

  lemma CutLaw(a: Sack1TcpAgent, cut: Cut, afterTimeout: bool)
    requires a.Valid()
    ensures CutsTo(cut, a.View(), a.CutTo(cut, afterTimeout), ConfigWith(a, a.dctcpAlpha),
                   a.firstDecrease, afterTimeout)
  {
    SlowdownCuts(a.View(), ConfigWith(a, a.dctcpAlpha), cut, a.firstDecrease, afterTimeout);
    hide Slowdown, CutsTo;
  }

  /** An echo above the recovery point cuts the window, by the DCTCP cut with the alpha
      of this acknowledgement or by half; an acknowledgement without an echo does not. */
  lemma EchoLaw(a: Sack1TcpAgent, ack: AckIn)
    requires a.Valid()
    ensures ack.ecnecho && a.c.ecn && ack.seqno > a.recover ==>
              CutsTo(if a.c.dctcp then DctcpCut else HalfCut, a.View(), a.AfterEcho(ack),
                     ConfigWith(a, a.DctcpAfter(ack).alpha), a.firstDecrease, false)
    ensures !(ack.ecnecho && a.c.ecn) ==> a.AfterEcho(ack) == a.View()
  {
    var cut := if a.c.dctcp then DctcpCut else HalfCut;
    SlowdownCuts(a.View(), ConfigWith(a, a.DctcpAfter(ack).alpha), cut, a.firstDecrease, false);
    hide Slowdown, CutsTo, OnAck;
  }

  /** A timeout with data outstanding cuts to the restart window, or to one packet when
      the window was last cut for ECN. */
  lemma TimeoutLaw(a: Sack1TcpAgent)
    requires a.Valid() && a.highestAck < a.maxseq
    ensures CutsTo(if a.lastAction == EcnAction then OneCut else RestartCut, a.View(), a.AfterTimeout(),
                   ConfigWith(a, a.dctcpAlpha), a.firstDecrease, true)
  {
    CutLaw(a, if a.lastAction == EcnAction then OneCut else RestartCut, true);
    hide Slowdown, CutsTo;
  }

  /** The last duplicate starts recovery, with a half cut, whenever everything up to the
      recovery point is acknowledged; with the fix for repeated recoveries on, not
      before, short of an ECN cut and of the first packet. */
  lemma RecoveryLaw(a: Sack1TcpAgent)
    requires a.Valid()
    ensures a.recover < a.highestAck ==> a.StartsAnew() && a.CutsForRecovery()
    ensures a.c.bugFix && a.highestAck <= a.recover && !(a.c.bugfixSs && a.highestAck == 0) ==>
              (a.c.ecn && a.lastAction == EcnAction) || (!a.StartsAnew() && !a.FollowsEcn())
    ensures a.c.ecn && a.lastAction == EcnAction ==> a.StartsAnew() || a.FollowsEcn()
    ensures CutsTo(HalfCut, a.View(), a.CutTo(HalfCut, false), ConfigWith(a, a.dctcpAlpha), a.firstDecrease, false)
  {
    CutLaw(a, HalfCut, false);
    hide Slowdown, CutsTo;
  }

  /** Without an echo the window may grow, unless growth is controlled and the
      application is the limit. */
  lemma GrowthLaw(a: Sack1TcpAgent, ecnecho: bool)
    ensures !ecnecho && !a.c.controlIncrease ==> a.Opens(ecnecho)
    ensures a.ect && ecnecho && !a.c.oldEcn ==> !a.Opens(ecnecho)
    ensures a.c.controlIncrease && a.tSeqno <= a.prevHighestAck + Trunc(a.Win()) ==> !a.Opens(ecnecho)
  {}

  /** The number of duplicates for fast retransmit: the larger of the configured number
      and the configured fraction of the window, in whole packets. */
  lemma DupacksLaw(a: Sack1TcpAgent, window: real)
    requires a.Valid() && 0.0 <= window
    ensures var n, f, w := a.NumDupacksAt(window), a.c.numdupacksFrac, window.Floor;
            && a.c.numdupacks <= n && w < (n + 1) * f && (n == a.c.numdupacks || n * f <= w)
  {
    var f, w := a.c.numdupacksFrac, window.Floor;
    var q := w / f;
    assert w == f * q + w % f;
    assert q * f <= w < (q + 1) * f;
    if q < a.c.numdupacks {
      ProductGrows(q + 1, a.c.numdupacks + 1, f);
    }
  }

  lemma ProductGrows(x: int, y: int, f: nat)
    requires x <= y
    ensures x * f <= y * f
  {
    ProductNonNegative(y - x, f);
    assert (y - x) * f == y * f - x * f;
  }

  /** A packet of new data is timed when none is; a timed packet stays. */
  lemma TimingLaw(t: Timer, seqno: int)
    requires t.seqno <= seqno
    ensures AfterNewData(t, seqno).active && AfterNewData(t, seqno).estimate == t.estimate
    ensures AfterNewData(t, seqno).seqno == if t.active then t.seqno else seqno
  {}

  /** The acknowledgement of the timed packet is the sample; it ends the backoff unless
      that is held. */
  lemma SampleTaken(t: Timer, seqno: int, ticks: int, hold: bool)
    ensures var t' := AfterSample(t, seqno, ticks, hold);
            && (t.active && t.seqno <= seqno ==>
                  !t'.active && t'.estimate == Update(t.estimate, ticks) && (!hold ==> t'.backoff == 1))
            && (!t.active || seqno < t.seqno ==> t' == t)
  {}

  /** Backing off doubles the multiplier up to 64, or while the timeout may grow. */
  lemma BackOffLaw(t: Timer, below: bool)
    ensures t.backoff < 64 || below ==> BackOff(t, below).backoff == 2 * t.backoff
    ensures 64 <= t.backoff && !below ==> BackOff(t, below).backoff == t.backoff
    ensures BackOff(t, below).active == t.active && BackOff(t, below).seqno == t.seqno
  {}

  /** What is taken to be in flight after the last duplicate: all that is outstanding
      but what the duplicates stand for. */
  lemma PipeLaw(a: Sack1TcpAgent, top: int, window: real)
    requires a.Valid()
    ensures var duplicates := if a.c.singledup && a.c.limTransmitFix then 1 else a.NumDupacksAt(window);
            a.PipeFor(false, top, window) + duplicates == top - a.highestAck
    ensures a.PipeFor(true, top, window) + a.NumDupacksAt(window) == Trunc(window)
  {}

  /** With nothing outstanding and no slow-start restart a timeout leaves the window. */
  lemma IdleLaw(a: Sack1TcpAgent)
    requires a.highestAck == a.maxseq && !a.c.slowStartRestart
    ensures a.AfterTimeout() == a.View()
  {}

  /** The backoff is held exactly for an echo to an ECN-capable sender that has already
      been down to one packet. */
  lemma HoldLaw(a: Sack1TcpAgent, ecnecho: bool)
    ensures !ecnecho || !a.ecnBackoff || !a.ect ==> !a.HoldsBackoff(ecnecho)
    ensures ecnecho && a.ecnBackoff && a.ect ==> a.HoldsBackoff(ecnecho)
  {}

  /** The header of a packet: data is ECN-capable when ECN is on, the first packet asks
      for ECN, and the first new packet after a cut says so. */
  lemma PacketLaw(a: Sack1TcpAgent, seqno: int)
    ensures a.c.ecn && 0 < seqno ==> a.PacketFor(seqno).ect && !a.PacketFor(seqno).ecnecho
    ensures a.c.ecn ==> a.PacketFor(0).ecnecho && a.PacketFor(0).ect == a.c.dctcp
    ensures !a.c.ecn ==> !a.PacketFor(seqno).ect && !a.PacketFor(seqno).ecnecho
    ensures a.congAction && a.maxseq <= seqno ==> a.PacketFor(seqno).congAction
    ensures !a.congAction ==> !a.PacketFor(seqno).congAction
  {}

  /** When sending stops: with data left, outside fast recovery the window is full, and
      in it the pipe is, or what is advertised. */
  lemma StuckLaw(a: Sack1TcpAgent)
    requires a.Valid() && a.Stuck() && a.tSeqno < a.curseq
    ensures !a.fastrecov ==> a.tSeqno > a.lastAck + Trunc(a.Win())
    ensures a.fastrecov ==> Trunc(a.cwnd) <= a.pipe || a.tSeqno > a.highestAck + Trunc(a.c.wnd)
  {}

  /** When a packet named for retransmission goes out. */
  lemma RetransmitLaw(a: Sack1TcpAgent, x: int)
    requires 0 < a.recover && x <= a.highestAck + Trunc(a.c.wnd) && a.lastAck + 1 < a.curseq
    ensures a.fastrecov && a.pipe < Trunc(a.cwnd) ==> a.MayRetransmit(x)
    ensures !a.fastrecov && a.tSeqno <= a.lastAck + Trunc(a.Win()) ==> a.MayRetransmit(x)
  {}
}
