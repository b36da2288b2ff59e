/** A whole connection: the sender, the receiver, and a network that may lose,
    duplicate and reorder both data and acknowledgements. */
module Connections {
  import opened Arith
  import opened ReceiveLog
  import opened Ackers
  import opened SackHistory
  import opened EcnEcho
  import opened Sinks
  import opened DctcpControl
  import opened RttEstimation
  import opened Senders

  /** One event. `Deliver` hands over any data packet ever sent, with whatever
      size and congestion mark it has, and `Acknowledge` any acknowledgement ever
      sent; a lost packet is one never chosen. */
  datatype Choice =
    | Deliver(j: nat, size: int, ce: bool)
    | Acknowledge(i: nat, oracle: Oracle)
    | DelayTimer
    | RetransmitTimer(oracle: Oracle)
    | Produce(delta: int, oracle: Oracle)

  lemma NextBound(keys: set<int>, maxseq: int)
    requires -1 <= maxseq && forall s | s in keys :: s <= maxseq
    ensures FirstGap(keys, 0) - 1 <= maxseq
  {
    assert !(FirstGap(keys, 0) - 1 > maxseq) || FirstGap(keys, 0) - 1 in keys;
  }

  /** Only packets sent have been received, and only packets received have been
      acknowledged. */
  ghost predicate Agree(keys: set<int>, seqno: int, highestAck: int, maxseq: int) {
    highestAck <= seqno && forall s | s in keys :: s <= maxseq
  }

  lemma AgreeMore(keys: set<int>, seqno: int, highestAck: int, maxseq: int, s: int, seqno': int)
    requires Agree(keys, seqno, highestAck, maxseq) && s <= maxseq && seqno <= seqno'
    ensures Agree(if s < 0 then keys else keys + {s}, seqno', highestAck, maxseq)
  {}

  /** An acknowledgement as the sender reads it. */
  function AckFor(ack: AckPacket): AckIn {
    AckIn(ack.seqno, ack.ecnecho, false)
  }

  lemma CutsExtend(was: seq<EcnEvent>, now: seq<EcnEvent>, cut: bool, e: EcnEvent)
    requires CutBy(was, now, cut, e)
    ensures was <= now
  {}

  /** Packets 0 to maxseq and no others. */
  ghost predicate Exactly(keys: set<int>, maxseq: int) {
    forall s :: s in keys <==> 0 <= s <= maxseq
  }

  /** Packets 0 to maxseq have been received. */
  ghost predicate Holding(keys: set<int>, maxseq: int) {
    forall s | 0 <= s <= maxseq :: s in keys
  }

  lemma AgreeAll(keys: set<int>, seqno: int, highestAck: int, maxseq: int, more: set<int>, seqno': int)
    requires Agree(keys, seqno, highestAck, maxseq) && Exactly(more, maxseq) && seqno <= seqno'
    ensures Agree(keys + more, seqno', highestAck, maxseq) && Holding(keys + more, maxseq)
  {}

  /** Delivering what was sent delivers packets 0 to maxseq. */
  lemma EverythingSent(sent: seq<DataPacket>, maxseq: int, size: int)
    requires SentExactly(sent, maxseq) && 0 < size
    ensures Deliverable(OnTheWire(sent, size)) && Exactly(SeqnosIn(OnTheWire(sent, size)), maxseq)
  {
    var ps := OnTheWire(sent, size);
    forall p | p in ps
      ensures 0 < p.size && 0 <= p.seqno <= maxseq
    {
      var i :| 0 <= i < |ps| && ps[i] == p;
      assert sent[i] in sent && WasSent(sent, sent[i].seqno);
    }
    forall s | 0 <= s <= maxseq
      ensures s in SeqnosIn(ps)
    {
      assert WasSent(sent, s);
      var q :| q in sent && q.seqno == s;
      var i :| 0 <= i < |sent| && sent[i] == q;
      assert ps[i] in ps;
    }
  }

  lemma AgreeUp(keys: set<int>, seqno: int, highestAck: int, maxseq: int, highestAck': int, maxseq': int)
    requires Agree(keys, seqno, highestAck, maxseq) && highestAck' <= seqno && maxseq <= maxseq'
    ensures Agree(keys, seqno, highestAck', maxseq')
  {}

  lemma AgreeStill(keys: set<int>, seqno: int, highestAck: int, maxseq: int, maxseq': int)
    requires Agree(keys, seqno, highestAck, maxseq) && maxseq <= maxseq'
    ensures Agree(keys, seqno, highestAck, maxseq')
  {}

  /** Data packets as the receiver gets them, not marked. */
  function OnTheWire(sent: seq<DataPacket>, size: int): (ps: seq<Packet>)
    ensures |ps| == |sent| && forall i | 0 <= i < |sent| :: ps[i] == PacketFor(sent[i], size, false)
  {
    seq(|sent|, i requires 0 <= i < |sent| => PacketFor(sent[i], size, false))
  }

  function PacketFor(p: DataPacket, size: int, ce: bool): Packet {
    Packet(p.seqno, size, p.ect, ce, p.congAction, p.ecnecho)
  }

  class Connection {
    const sender: Sack1TcpAgent
    const sink: DelAckSink
    /** Every acknowledgement sent. */
    var wire: seq<AckPacket>

    ghost function Footprint(): set<object>
      reads this, sink, sink.sacker, sink.sacker.acker
    {
      {this, sender} + sink.Footprint()
    }

    ghost predicate Valid()
      reads Footprint()
    {
      && sender.Valid() && sink.Valid()
      && Agree(sink.sacker.Keys(), sink.sacker.acker.Seqno(), sender.highestAck, sender.maxseq)
      && wire == sink.trace.acks
    }

    constructor (c: SenderConfig, initialWindow: real, alpha: real, estimate: Estimate,
                 nblocks: nat, delays: bool, immediateAck: bool)
      requires Reasonable(c) && 1.0 <= initialWindow && 0.0 <= alpha <= 1.0
      ensures Valid() && fresh(Footprint()) && sender.c == c
      ensures sender.curseq == 0 && sender.maxseq == -1 && sink.sacker.Keys() == {}
    {
      hide Consistent, History, Faithful, SentExactly, Sane, Latch, ToLog, Holds;
      sender := new Sack1TcpAgent(c, initialWindow, alpha, estimate);
      sink := new DelAckSink(nblocks, delays, immediateAck, false);
      wire := [];
    }

    /** The sequence variables of the two ends, in order. */
    ghost predicate Ordered()
      reads this, sender, sink, sink.sacker, sink.sacker.acker
    {
      && sender.lastAck <= sender.highestAck <= sink.sacker.acker.Seqno() <= sender.maxseq
      && (!sender.fastrecov ==> sender.lastAck == sender.highestAck)
      && (sender.fastrecov ==> sender.highestAck <= sender.recover)
    }

    lemma ValidIsOrdered()
      requires Valid()
      ensures Ordered()
      ensures forall i | 0 <= i < |wire| :: -1 <= wire[i].seqno <= sender.maxseq
      ensures forall s | 0 <= s <= sender.highestAck :: s in sink.sacker.Keys()
    {
      NextBound(sink.sacker.Keys(), sender.maxseq);
    }

    lemma AckBound(ack: AckPacket)
      requires Valid() && ack in wire
      ensures -1 <= ack.seqno <= sink.sacker.acker.Seqno() && ack.seqno <= sender.maxseq
    {
      ValidIsOrdered();
    }

    /** Whether the network or the hosts can take this step now; the scoreboard
        only names packets already sent. */
    predicate Enabled(choice: Choice)
      reads this, sender, sink
    {
      match choice
      case Deliver(j, size, _) => j < |sender.sent| && 0 < size
      case Acknowledge(i, oracle) => i < |wire| && Retransmits(oracle)
      case DelayTimer => sink.timerPending
      case RetransmitTimer(oracle) => Retransmits(oracle)
      case Produce(_, oracle) => Retransmits(oracle)
    }

    predicate Retransmits(oracle: Oracle)
      reads this, sender
    {
      forall x | x in oracle.retransmit :: 0 <= x <= sender.maxseq
    }

    method DeliverData(p: DataPacket, size: int, ce: bool)
      requires Valid() && p in sender.sent && 0 < size
      modifies this`wire, sink, sink.sacker, sink.sacker.acker, sink.sacker.acker.seen
      modifies sink.sacker.sf, sink.sacker.sf.sfe
      ensures Valid() && fresh(sink.Footprint() - old(sink.Footprint()))
      ensures sink.sacker.Keys() == old(sink.sacker.Keys()) + {p.seqno}
      ensures old(sink.sacker.acker.Seqno()) <= sink.sacker.acker.Seqno()
    {
      hide Holds, Faithful, Consistent, SentExactly;
      sender.SentBound(p);
      ghost var keys, seqno := sink.sacker.Keys(), sink.sacker.acker.Seqno();
      var more := sink.Deliver(PacketFor(p, size, ce));
      AgreeMore(keys, seqno, sender.highestAck, sender.maxseq, p.seqno, sink.sacker.acker.Seqno());
      wire := wire + more;
    }

    method DelayTimeout()
      requires Valid() && sink.timerPending
      modifies this`wire, sink, sink.sacker, sink.sacker.sf, sink.sacker.sf.sfe
      ensures Valid() && Footprint() == old(Footprint()) && !sink.timerPending
    {
      var ack := sink.Timeout();
      if ack.Some? {
        wire := wire + [ack.value];
      }
    }

    method DeliverAck(ack: AckPacket, oracle: Oracle)
      requires Valid() && ack in wire && Retransmits(oracle)
      modifies sender
      ensures Valid() && sender.highestAck == Max(old(sender.highestAck), ack.seqno)
      ensures old(sender.cuts) <= sender.cuts
    {
      AckBound(ack);
      ghost var highestAck, maxseq := sender.highestAck, sender.maxseq;
      ghost var cuts, cut, e := sender.cuts, sender.CutsFor(AckFor(ack)), sender.CutNow(ack.seqno);
      hide Agree, Holds, Faithful, Consistent, SentExactly, CutsKept, CutBy;
      sender.Recv(AckFor(ack), oracle);
      CutsExtend(cuts, sender.cuts, cut, e);
      AgreeUp(sink.sacker.Keys(), sink.sacker.acker.Seqno(), highestAck, maxseq, sender.highestAck, sender.maxseq);
    }

    /** The acknowledgement that answers for everything sent. */
    method DeliverLast(ack: AckPacket, oracle: Oracle)
      requires Valid() && ack in wire && Finishes(ack) && oracle.retransmit == []
      modifies sender
      ensures Valid() && !sender.fastrecov && sender.highestAck == sender.lastAck == old(sender.maxseq)
      ensures Continues(old(sender.sent), sender.sent, old(sender.curseq), sender.curseq,
                        old(sender.maxseq), sender.maxseq)
    {
      hide Agree, Holds, Faithful, Consistent, SentExactly, CutsKept, CutBy, Continues;
      AckBound(ack);
      ghost var highestAck, maxseq := sender.highestAck, sender.maxseq;
      sender.Recv(AckFor(ack), oracle);
      AgreeUp(sink.sacker.Keys(), sink.sacker.acker.Seqno(), highestAck, maxseq, sender.highestAck, sender.maxseq);
    }

    /** The acknowledgement is the first to answer for everything sent. */
    predicate Finishes(ack: AckPacket)
      reads this, sender
    {
      sender.Finishes(AckFor(ack))
    }

    /** The application has no data that has not been sent. */
    predicate AllSent()
      reads this, sender
    {
      sender.curseq <= sender.maxseq + 1
    }

    method SenderTimeout(oracle: Oracle)
      requires Valid() && Retransmits(oracle)
      modifies sender
      ensures Valid() && sender.highestAck == old(sender.highestAck) && sender.cuts == old(sender.cuts)
      ensures sender.timedOut && !sender.fastrecov
      ensures oracle.retransmit == [] && sender.highestAck + 1 < old(sender.curseq) ==>
                sender.highestAck + 1 < sender.tSeqno
    {
      sender.Timeout(oracle);
    }

    method NewData(delta: int, oracle: Oracle)
      requires Valid() && Retransmits(oracle)
      modifies sender
      ensures Valid() && sender.highestAck == old(sender.highestAck) && sender.cuts == old(sender.cuts)
      ensures sender.curseq == old(sender.curseq) + delta + Syn(old(sender.maxseq))
      ensures old(sender.maxseq) <= sender.maxseq <= Max(old(sender.maxseq), sender.curseq - 1)
      ensures sender.lastAck == old(sender.lastAck) && sender.fastrecov == old(sender.fastrecov)
      ensures oracle.retransmit == [] && old(Clear()) && old(sender.maxseq) + 1 < old(sender.curseq) + delta ==>
                old(sender.maxseq) < sender.maxseq
      ensures oracle.retransmit == [] && old(sender.curseq) + delta <= old(sender.lastAck) + 1 ==>
                sender.maxseq == old(sender.maxseq)
    {
      hide Agree, Holds, Faithful, Consistent, SentExactly, CutsKept;
      ghost var highestAck, maxseq := sender.highestAck, sender.maxseq;
      sender.AtLeastOnePacket();
      sender.AdvanceBy(delta, oracle);
      AgreeStill(sink.sacker.Keys(), sink.sacker.acker.Seqno(), highestAck, maxseq, sender.maxseq);
    }

    /** The SYN packet, counted on the first send. */
    function Syn(topBefore: int): int
      reads this, sender
    {
      if sender.c.syn && topBefore == -1 && 0 <= sender.maxseq then 1 else 0
    }

    /** Everything sent is acknowledged and no recovery is under way. */
    predicate Clear()
      reads this, sender
    {
      sender.lastAck == sender.maxseq && !sender.fastrecov
    }

    /** One step of a run. Acknowledged packets stay acknowledged. */
    method Step(choice: Choice)
      requires Valid() && Enabled(choice)
      modifies Footprint()
      ensures Valid() && fresh(Footprint() - old(Footprint()))
      ensures old(sender.highestAck) <= sender.highestAck && old(sender.cuts) <= sender.cuts
      ensures old(sink.sacker.acker.Seqno()) <= sink.sacker.acker.Seqno()
      ensures choice.Deliver? ==> old(sender.sent[choice.j].seqno) in sink.sacker.Keys()
      ensures choice.Acknowledge? ==> sender.highestAck == Max(old(sender.highestAck), old(wire[choice.i].seqno))
      ensures choice.DelayTimer? ==> !sink.timerPending
      ensures choice.RetransmitTimer? ==> sender.timedOut && !sender.fastrecov
      ensures choice.Produce? ==> sender.curseq == old(sender.curseq) + choice.delta + Syn(old(sender.maxseq))
    {
      hide Consistent, History, Faithful, SentExactly, Sane, Latch, ToLog, Holds;
      match choice
      case Deliver(j, size, ce) => DeliverData(sender.sent[j], size, ce);
      case Acknowledge(i, oracle) => DeliverAck(wire[i], oracle);
      case DelayTimer => DelayTimeout();
      case RetransmitTimer(oracle) => SenderTimeout(oracle);
      case Produce(delta, oracle) => NewData(delta, oracle);
    }

    /** Safety over whole runs: whatever the network and the timers do, in every
        state on the way nothing is acknowledged that was not received, nothing is
        received that was not sent, acknowledgements never go back, and the window has
        been cut for ECN at most once for each window of data. */
    method Run(choices: seq<Choice>)
      requires Valid()
      modifies Footprint()
      ensures Valid() && Ordered()
      ensures old(sender.highestAck) <= sender.highestAck
      ensures OncePerWindow(sender.cuts) && old(sender.cuts) <= sender.cuts
      ensures forall s | 0 <= s <= sender.highestAck :: s in sink.sacker.Keys()
    {
      hide Consistent, History, Faithful, SentExactly, Sane, Latch, ToLog, Holds;
      var k := 0;
      while k < |choices|
        invariant 0 <= k <= |choices| && Valid()
        invariant fresh(Footprint() - old(Footprint()))
        invariant old(sender.highestAck) <= sender.highestAck && old(sender.cuts) <= sender.cuts
      {
        if Enabled(choices[k]) {
          Step(choices[k]);
        }
        k := k + 1;
      }
      ValidIsOrdered();
    }

    lemma AllOfThem(size: int)
      requires Valid() && 0 < size
      ensures Deliverable(OnTheWire(sender.sent, size))
      ensures Exactly(SeqnosIn(OnTheWire(sender.sent, size)), sender.maxseq)
    {
      EverythingSent(sender.sent, sender.maxseq, size);
    }

    /** The network delivers every packet sent so far, once more or for the first
        time. */
    method DeliverAll(size: int)
      requires Valid() && 0 < size
      modifies this`wire, sink, sink.sacker, sink.sacker.acker, sink.sacker.acker.seen
      modifies sink.sacker.sf, sink.sacker.sf.sfe
      ensures Valid() && fresh(sink.Footprint() - old(sink.Footprint()))
      ensures Holding(sink.sacker.Keys(), sender.maxseq)
    {
      hide Agree, Exactly, Holding, Deliverable, OnTheWire, SeqnosIn, Holds, Faithful, Consistent, SentExactly;
      ghost var keys, seqno := sink.sacker.Keys(), sink.sacker.acker.Seqno();
      var packets := OnTheWire(sender.sent, size);
      AllOfThem(size);
      var more := sink.DeliverEach(packets);
      AgreeAll(keys, seqno, sender.highestAck, sender.maxseq, SeqnosIn(packets), sink.sacker.acker.Seqno());
      wire := wire + more;
    }

    /** Once everything sent has arrived and nothing is held back, the last
        acknowledgement answers for all of it. */
    lemma LastAnswersAll()
      requires Valid() && !sink.timerPending && 0 <= sender.maxseq
      requires Holding(sink.sacker.Keys(), sender.maxseq)
      ensures wire != [] && wire[|wire| - 1].seqno == sender.maxseq
    {
      GapIsUnique(sink.sacker.Keys(), 0, sender.maxseq + 1);
    }

    /** The packets sent so far arrive and the delay timer, if it runs, fires. */
    method Settle(size: int)
      requires Valid() && 0 < size
      modifies this`wire, sink, sink.sacker, sink.sacker.acker, sink.sacker.acker.seen
      modifies sink.sacker.sf, sink.sacker.sf.sfe
      ensures Valid() && fresh(sink.Footprint() - old(sink.Footprint()))
      ensures 0 <= sender.maxseq ==> wire != [] && wire[|wire| - 1].seqno == sender.maxseq
    {
      hide Holds, Faithful, Consistent, SentExactly, CutsKept;
      DeliverAll(size);
      if sink.timerPending {
        DelayTimeout();
      }
      if 0 <= sender.maxseq {
        LastAnswersAll();
      }
    }

    /** Recovery from whatever has happened: in every reachable state it is enough
        that the packets sent so far arrive, the delay timer fires and the last
        acknowledgement gets back. Then everything sent is acknowledged and fast
        recovery is over; and with no more data nothing more is sent. */
    method Drain(size: int, oracle: Oracle)
      requires Valid() && 0 < size && oracle.retransmit == []
      modifies Footprint()
      ensures Valid() && !sender.fastrecov && sender.highestAck == sender.lastAck == old(sender.maxseq)
      ensures fresh(Footprint() - old(Footprint()))
      ensures old(AllSent()) ==> sender.sent == old(sender.sent)
      ensures sender.curseq == old(sender.curseq)
      ensures old(sender.maxseq) <= sender.maxseq <= Max(old(sender.maxseq), sender.curseq - 1)
      ensures if old(Clear() || AllSent()) then sender.maxseq == old(sender.maxseq)
              else old(sender.maxseq) < sender.maxseq
    {
      hide Holds, Faithful, Consistent, SentExactly, CutsKept, Continues;
      Settle(size);
      if sender.lastAck < sender.maxseq || sender.fastrecov {
        ghost var was, cur, top := sender.sent, sender.curseq, sender.maxseq;
        DeliverLast(wire[|wire| - 1], oracle);
        ContinuesMeans(was, sender.sent, cur, sender.curseq, top, sender.maxseq);
      }
    }

    /** As many rounds as there is data for. */
    method DrainAll(size: int, oracle: Oracle)
      requires Valid() && 0 < size && oracle.retransmit == [] && (AllSent() || !Clear())
      modifies Footprint()
      ensures Valid() && fresh(Footprint() - old(Footprint())) && AllSent()
      ensures sender.curseq == old(sender.curseq) && old(sender.maxseq) <= sender.maxseq
      ensures sender.maxseq <= Max(old(sender.maxseq), sender.curseq - 1)
      ensures old(AllSent()) ==> sender.maxseq == old(sender.maxseq)
    {
      hide Holds, Faithful, Consistent, SentExactly, CutsKept, Continues, Agree;
      while !AllSent()
        invariant Valid() && fresh(Footprint() - old(Footprint())) && (AllSent() || !Clear())
        invariant sender.curseq == old(sender.curseq) && old(sender.maxseq) <= sender.maxseq
        invariant sender.maxseq <= Max(old(sender.maxseq), sender.curseq - 1)
        invariant old(AllSent()) ==> sender.maxseq == old(sender.maxseq)
        decreases sender.curseq - sender.maxseq
      {
        Drain(size, oracle);
      }
    }

    /** Progress: from every reachable state, if the application produces `n` packets,
        enough rounds in which what has been sent arrives and the last acknowledgement
        gets back bring all there is to the receiver: it holds exactly packets 0 to
        `maxseq`, nothing is left to send, and everything is acknowledged. */
    method Complete(n: nat, size: int, oracle: Oracle)
      requires Valid() && 0 < size && oracle.retransmit == []
      modifies Footprint()
      ensures Valid() && AllSent() && Clear() && Exactly(sink.sacker.Keys(), sender.maxseq)
      ensures sender.curseq == old(sender.curseq) + n + Syn(old(sender.maxseq))
      ensures old(sender.maxseq < sender.curseq) ==> sender.maxseq == sender.curseq - 1
      ensures old(sender.curseq) + n <= old(sender.maxseq) + 1 ==> sender.maxseq == old(sender.maxseq)
    {
      hide Holds, Faithful, Consistent, SentExactly, CutsKept, Continues, Agree, Exactly;
      assert sender.maxseq == -1 ==> Clear();
      Drain(size, oracle);
      NewData(n, oracle);
      DrainAll(size, oracle);
      Drain(size, oracle);
      ExactlyReceived();
    }

    /** Everything sent has arrived when everything sent is acknowledged. */
    lemma ExactlyReceived()
      requires Valid() && Clear()
      ensures Exactly(sink.sacker.Keys(), sender.maxseq)
    {
      ValidIsOrdered();
    }

    /** A new connection: after `n` packets the receiver holds exactly those, and the SYN
        packet if there is one. */
    method Transfer(n: nat, size: int, oracle: Oracle)
      requires Valid() && 0 < size && oracle.retransmit == [] && sender.curseq == 0 && sender.maxseq == -1
      modifies Footprint()
      ensures Valid() && Clear()
      ensures Exactly(sink.sacker.Keys(), n - 1 + if sender.c.syn && 0 < n then 1 else 0)
    {
      hide Holds, Faithful, Consistent, SentExactly, CutsKept, Continues, Agree, Exactly;
      Complete(n, size, oracle);
    }
  }
}
