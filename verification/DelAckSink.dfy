/** What the congestion echo of a receiver should say, given the packets covered
    by each acknowledgement it sent. */
module EcnEcho {

  datatype Packet = Packet(seqno: int, size: int, ect: bool, ce: bool, congAction: bool, ecnecho: bool)

  /** The packets one acknowledgement answers for: the one that triggered it and
      possibly the one held back before it. */
  type Batch = seq<Packet>

  predicate Capable(b: Batch) {
    exists p | p in b :: p.ect
  }

  predicate Marked(b: Batch) {
    exists p | p in b :: p.ect && p.ce
  }

  predicate Responded(b: Batch) {
    exists p | p in b :: p.congAction
  }

  predicate Negotiates(b: Batch) {
    exists p | p in b :: !p.ect && p.ecnecho
  }

  /** The latch: set by a mark, cleared by the sender's response. */
  predicate Latch(batches: seq<Batch>) {
    if batches == [] then false
    else
      var last := batches[|batches| - 1];
      Marked(last) || (!Responded(last) && Latch(batches[..|batches| - 1]))
  }

  predicate Echo(batches: seq<Batch>)
    requires batches != []
  {
    var last := batches[|batches| - 1];
    (Capable(last) && Latch(batches)) || Negotiates(last)
  }

  /** Section 6.1.3 of RFC 3168: a mark is echoed until an acknowledged batch
      carries the sender's response and no new mark, and not otherwise. */
  lemma {:induction false} LatchMeansUnansweredMark(batches: seq<Batch>)
    ensures Latch(batches) <==>
            exists i | 0 <= i < |batches| :: Marked(batches[i]) && Unanswered(batches, i)
  {
    if batches != [] {
      var n := |batches| - 1;
      var init, last := batches[..n], batches[n];
      LatchMeansUnansweredMark(init);
      if Marked(last) {
        assert Unanswered(batches, n);
      } else if Responded(last) {
        assert forall i | 0 <= i < n :: !Unanswered(batches, i);
      } else {
        forall i | 0 <= i < n
          ensures init[i] == batches[i] && (Unanswered(init, i) <==> Unanswered(batches, i))
        {
          if Unanswered(init, i) {
            forall j | i < j < |batches|
              ensures !Responded(batches[j]) || Marked(batches[j])
            {
              if j < n {
                assert init[j] == batches[j];
              }
            }
          }
          if Unanswered(batches, i) {
            assert forall j | i < j < n :: init[j] == batches[j];
          }
        }
      }
    }
  }

  ghost predicate Unanswered(batches: seq<Batch>, i: int)
    requires 0 <= i
  {
    forall j | i < j < |batches| :: !Responded(batches[j]) || Marked(batches[j])
  }

  function Flatten(batches: seq<Batch>): seq<Packet> {
    if batches == [] then [] else Flatten(batches[..|batches| - 1]) + batches[|batches| - 1]
  }

  lemma {:induction false} FlattenHas(batches: seq<Batch>, i: nat, p: Packet)
    requires i < |batches| && p in batches[i]
    ensures p in Flatten(batches)
  {
    var n := |batches| - 1;
    if i < n {
      FlattenHas(batches[..n], i, p);
    }
  }

  /** Batch `k` carries a mark and none up to batch `i` answers it. */
  ghost predicate MarkPending(batches: seq<Batch>, k: nat, i: nat)
    requires k <= i < |batches|
  {
    && (exists p | p in batches[k] :: p.ect && p.ce)
    && forall j | k < j <= i ::
         (forall p | p in batches[j] :: !p.congAction) || exists p | p in batches[j] :: p.ect && p.ce
  }

  /** With ECN-capable data only, acknowledgement `i` should echo exactly a mark that
      is pending. */
  lemma EchoIffPending(batches: seq<Batch>, i: nat)
    requires i < |batches| && batches[i] != [] && forall p | p in batches[i] :: p.ect
    ensures Echo(batches[..i + 1]) <==> exists k | 0 <= k <= i :: MarkPending(batches, k, i)
  {
    var seen := batches[..i + 1];
    LatchMeansUnansweredMark(seen);
    assert batches[i][0] in batches[i] && seen[|seen| - 1] == batches[i];
    forall k | 0 <= k <= i
      ensures MarkPending(batches, k, i) <==> Marked(seen[k]) && Unanswered(seen, k)
    {
      assert forall j | k <= j <= i :: seen[j] == batches[j];
    }
  }
}

/** `TcpSink` and `DelAckSink` of tcp-sink.cc with the SACK receiver. */
module Sinks {
  import opened ReceiveLog
  import opened Ackers
  import opened SackHistory
  import opened SackReports
  import opened Sackers
  import opened EcnEcho

  datatype AckPacket = AckPacket(seqno: int, ecnecho: bool, ect: bool, sack: seq<Block>)

  datatype Option<T> = None | Some(value: T)

  function ToLog(packets: seq<Packet>): (log: seq<Arrival>)
    ensures |log| == |packets|
  {
    seq(|packets|, i requires 0 <= i < |packets| => Arrival(packets[i].seqno, packets[i].size))
  }

  ghost predicate Deliverable(packets: seq<Packet>) {
    forall p | p in packets :: 0 < p.size && 0 <= p.seqno
  }

  function SeqnosIn(packets: seq<Packet>): set<int> {
    set p | p in packets :: p.seqno
  }

  function Held(save: Option<Packet>): seq<Packet> {
    if save.Some? then [save.value] else []
  }

  /** Everything a receiver has done: what arrived, the batches it acknowledged
      and the acknowledgements it sent. */
  datatype Trace = Trace(arrivals: seq<Packet>, batches: seq<Batch>, acks: seq<AckPacket>)

  /** Every accepted packet has been acknowledged once or is the one held back;
      there is one acknowledgement per batch, it carries the right echo, the
      cumulative numbers never go back, and with nothing held back the last one is
      up to date. */
  ghost predicate Consistent(trace: Trace, save: Option<Packet>, ackno: int) {
    && Flatten(trace.batches) + Held(save) == trace.arrivals
    && |trace.acks| == |trace.batches|
    && (forall i | 0 <= i < |trace.batches| :: trace.batches[i] != [])
    && (save.None? ==> ackno == if trace.acks == [] then -1 else trace.acks[|trace.acks| - 1].seqno)
    && (forall i | 0 <= i < |trace.acks| :: -1 <= trace.acks[i].seqno <= ackno)
    && (forall i, j | 0 <= i < j < |trace.acks| :: trace.acks[i].seqno <= trace.acks[j].seqno)
    && (forall i | 0 <= i < |trace.acks| :: trace.acks[i].ecnecho == Echo(trace.batches[..i + 1]))
  }

  function Acknowledge(trace: Trace, batch: Batch, ack: AckPacket): Trace {
    trace.(batches := trace.batches + [batch], acks := trace.acks + [ack])
  }

  /** One more batch changes no echo already sent. */
  lemma EchoesKept(acks: seq<AckPacket>, batches: seq<Batch>, batch: Batch, ack: AckPacket)
    requires |acks| == |batches| && ack.ecnecho == Echo(batches + [batch])
    requires forall i | 0 <= i < |acks| :: acks[i].ecnecho == Echo(batches[..i + 1])
    ensures forall i | 0 <= i < |acks + [ack]| ::
              (acks + [ack])[i].ecnecho == Echo((batches + [batch])[..i + 1])
  {
    hide Echo;
    var batches' := batches + [batch];
    assert batches'[..|batches'|] == batches';
    forall i | 0 <= i < |acks|
      ensures acks[i].ecnecho == Echo(batches'[..i + 1])
    {
      assert batches'[..i + 1] == batches[..i + 1];
    }
  }

  lemma FlattenAppend(batches: seq<Batch>, batch: Batch)
    ensures Flatten(batches + [batch]) == Flatten(batches) + batch
  {
    assert (batches + [batch])[..|batches + [batch]| - 1] == batches;
  }

  lemma ConsistentAck(trace: Trace, save: Option<Packet>, was: int, more: seq<Packet>, ackno: int, ack: AckPacket)
    requires Consistent(trace, save, was) && -1 <= was <= ackno && ack.seqno == ackno
    requires Held(save) + more != []
    requires var batch := Held(save) + more; ack.ecnecho == Echo(trace.batches + [batch])
    ensures var trace' := trace.(arrivals := trace.arrivals + more);
            Consistent(Acknowledge(trace', Held(save) + more, ack), None, ackno)
  {
    hide Echo, Flatten;
    FlattenAppend(trace.batches, Held(save) + more);
    EchoesKept(trace.acks, trace.batches, Held(save) + more, ack);
  }

  lemma ArrivalEffect(log: seq<Arrival>, pkt: Packet)
    ensures var log' := log + [Arrival(pkt.seqno, pkt.size)];
            && Recorded(log').Keys == (if pkt.seqno < 0 then Recorded(log).Keys else Recorded(log).Keys + {pkt.seqno})
            && Next(log) <= Next(log')
  {
    var a := Arrival(pkt.seqno, pkt.size);
    NextGrows(log, a);
    RecordedAppend(log, a);
    RecordedKeys(log);
    RecordedKeys(log + [a]);
  }

  lemma ConsistentHold(trace: Trace, was: int, pkt: Packet, ackno: int)
    requires Consistent(trace, None, was) && was <= ackno
    ensures Consistent(trace.(arrivals := trace.arrivals + [pkt]), Some(pkt), ackno)
  {
    assert Flatten(trace.batches) + [] == Flatten(trace.batches);
  }

  lemma LatchAppend(batches: seq<Batch>, b: Batch)
    ensures Latch(batches + [b]) == (Marked(b) || (!Responded(b) && Latch(batches)))
  {
    assert (batches + [b])[..|batches + [b]| - 1] == batches;
  }

  lemma LogAppend(packets: seq<Packet>, p: Packet)
    ensures ToLog(packets + [p]) == ToLog(packets) + [Arrival(p.seqno, p.size)]
  {}

  /** The stack is what it would be had every packet been acknowledged at once:
      holding some back changes nothing. */
  ghost predicate History(stack: seq<Block>, arrivals: seq<Packet>, size: nat) {
    stack == Replay(Numbers(ToLog(arrivals)), size)
  }

  lemma HistoryStep(stack: seq<Block>, arrivals: seq<Packet>, pkt: Packet, size: nat)
    requires History(stack, arrivals, size)
    ensures var arrivals' := arrivals + [pkt];
            var keys' := Recorded(ToLog(arrivals')).Keys;
            && (pkt.seqno < 0 || pkt.seqno in keys')
            && History(StackAfter(stack, keys', pkt.seqno, size), arrivals', size)
  {
    var log, a := ToLog(arrivals), Arrival(pkt.seqno, pkt.size);
    LogAppend(arrivals, pkt);
    RecordedKeys(log + [a]);
    NumbersAppend(log, a);
    assert Numbers(log + [a])[..|log|] == Numbers(log);
    assert a.seqno < 0 || a.seqno in Received(Numbers(log) + [a.seqno]);
  }

  /** What the blocks of a receiver say: each is a maximal run of received packets
      above the cumulative acknowledgement, no two overlap or touch, and every run
      is there exactly when each has always fitted. */
  lemma ReportsAreRuns(stack: seq<Block>, arrivals: seq<Packet>, size: nat)
    requires History(stack, arrivals, size)
    ensures var keys := Recorded(ToLog(arrivals)).Keys;
            && |stack| <= size
            && (forall b | b in stack :: IsRun(keys, b) && Cumulative(keys) < b.left)
            && (forall i, j | 0 <= i < j < |stack| ::
                  stack[i].right < stack[j].left || stack[j].right < stack[i].left)
            && ((forall b | IsRun(keys, b) && Cumulative(keys) < b.left :: b in stack) <==>
                (forall j: nat | j < |arrivals| && LastOfRun(Numbers(ToLog(arrivals)), j) ::
                   AlwaysFits(Numbers(ToLog(arrivals)), j, size)))
  {
    hide LastOfRun, AlwaysFits, Cumulative, IsRun;
    var trace := Numbers(ToLog(arrivals));
    RecordedKeys(ToLog(arrivals));
    ReplayIsPrefix(trace, size);
    RecencyListsRuns(trace, Received(trace));
    EveryRunReportedIff(trace, size);
  }

  /** Acknowledging the last packet in order once more leaves the stack alone. */
  lemma AnsweredAlready(stack: seq<Block>, acked: seq<int>, keys: set<int>, t: int, size: nat)
    requires Faithful(stack, acked, keys) && t == Cumulative(keys) - 1
    ensures (t < 0 || t in keys) && StackAfter(stack, keys, t, size) == stack
  {
    if t >= 0 {
      assert keys + {t} == keys;
      FaithfulDelay(stack, acked, keys, t, size);
    }
  }

  /** A receiver that has seen nothing. */
  lemma Beginning(size: nat)
    ensures Consistent(Trace([], [], []), None, -1) && History([], [], size) && Faithful([], [], {})
    ensures ToLog([]) == [] && Recorded([]).Keys == {} && Delivered([]) == 0 && !Latch([])
  {
    GapIsUnique({}, 0, 0);
  }

  class DelAckSink {
    const sacker: Sacker
    const delays: bool          // DelAckSink rather than TcpSink
    const immediateAck: bool    // RFC2581_immediate_ack_
    const ecnSyn: bool
    var save: Option<Packet>
    var timerPending: bool
    var ecnUnacked: bool
    var bytes: int

    ghost var trace: Trace

    ghost function Footprint(): set<object>
      reads this, sacker, sacker.acker
    {
      {this, sacker, sacker.acker, sacker.acker.seen, sacker.sf, sacker.sf.sfe}
    }

    ghost predicate Valid()
      reads Footprint()
    {
      && sacker.Valid()
      && Faithful(sacker.sf.Contents(), sacker.acked, sacker.Keys())
      && History(sacker.sf.Contents(), trace.arrivals, sacker.sf.size)
      && Consistent(trace, save, sacker.acker.Seqno())
      && sacker.acker.log == ToLog(trace.arrivals)
      && bytes == Delivered(sacker.acker.log)
      && ecnUnacked == Latch(trace.batches)
      && (timerPending <==> save.Some?)
      && (save.Some? ==> delays && save.value.seqno == sacker.acker.Seqno())
    }

    constructor (nblocks: nat, delays: bool, immediateAck: bool, ecnSyn: bool)
      ensures Valid() && fresh(Footprint())
      ensures trace == Trace([], [], []) && save == None && sacker.Keys() == {} && sacker.acker.next == 0
    {
      Beginning(nblocks);
      hide Consistent, History, Faithful, Recency, Latch, ToLog;
      sacker := new Sacker(nblocks);
      this.delays, this.immediateAck, this.ecnSyn := delays, immediateAck, ecnSyn;
      save, timerPending, ecnUnacked, bytes := None, false, false, 0;
      trace := Trace([], [], []);
    }

    /** Section 6.1.3 of RFC 3168, for the acknowledgements this receiver has sent:
        with ECN-capable data each one carries the echo if and only if it answers, or
        an earlier one answered, for a marked packet and no batch since then, its own
        included, carried the sender's response without a new mark. */
    lemma EchoesUntilAnswered()
      requires Valid() && forall p | p in trace.arrivals :: p.ect
      ensures forall i | 0 <= i < |trace.acks| ::
                trace.acks[i].ecnecho <==> exists k | 0 <= k <= i :: MarkPending(trace.batches, k, i)
    {
      hide MarkPending, Echo, Flatten;
      forall i | 0 <= i < |trace.acks|
        ensures trace.acks[i].ecnecho <==> exists k | 0 <= k <= i :: MarkPending(trace.batches, k, i)
      {
        forall p | p in trace.batches[i]
          ensures p.ect
        {
          FlattenHas(trace.batches, i, p);
          assert p in trace.arrivals;
        }
        EchoIffPending(trace.batches, i);
      }
    }

    /** The congestion bits of an acknowledgement. */
    method EcnBits(opkt: Packet, ghost batch: Batch) returns (ecnecho: bool, ect: bool)
      requires forall p :: p in batch <==> p == opkt || p in Held(save)
      modifies this`ecnUnacked
      ensures ecnUnacked == (Marked(batch) || (!Responded(batch) && old(ecnUnacked)))
      ensures ecnecho == ((Capable(batch) && ecnUnacked) || Negotiates(batch))
      ensures ect == (Negotiates(batch) && ecnSyn)
    {
      if (save.Some? && save.value.congAction) || opkt.congAction {
        ecnUnacked := false;
      }
      if (save.Some? && save.value.ect && save.value.ce) || (opkt.ect && opkt.ce) {
        ecnUnacked := true;
      }
      ecnecho, ect := false, false;
      if (save.Some? && save.value.ect) || opkt.ect {
        ecnecho := ecnUnacked;
      }
      if (!opkt.ect && opkt.ecnecho) || (save.Some? && !save.value.ect && save.value.ecnecho) {
        ecnecho := true;
        if ecnSyn {
          ect := true;
        }
      }
      assert opkt in batch && forall p | p in Held(save) :: p in batch;
      assert save.Some? ==> save.value in Held(save);
    }

    /** `TcpSink::ack`: one acknowledgement, triggered by `opkt` and answering for
        `batch`. */
    method Ack(opkt: Packet, ghost before: set<int>, ghost batch: Batch) returns (npkt: AckPacket)
      requires sacker.Valid() && Faithful(sacker.sf.Contents(), sacker.acked, before)
      requires sacker.Keys() == if opkt.seqno < 0 then before else before + {opkt.seqno}
      requires Window(sacker.acker.seen[..], Recorded(sacker.acker.log), Cumulative(before), sacker.acker.maxseen)
      requires forall p :: p in batch <==> p == opkt || p in Held(save)
      modifies this`ecnUnacked, sacker, sacker.sf, sacker.sf.sfe
      ensures sacker.Valid() && Faithful(sacker.sf.Contents(), sacker.acked, sacker.Keys())
      ensures sacker.sf.Contents() ==
              StackAfter(old(sacker.sf.Contents()), sacker.Keys(), opkt.seqno, sacker.sf.size)
      ensures npkt.seqno == sacker.acker.Seqno()
      ensures npkt.sack == if opkt.seqno < 0 then [] else sacker.sf.Contents()
      ensures ecnUnacked == (Marked(batch) || (!Responded(batch) && old(ecnUnacked)))
      ensures npkt.ecnecho == ((Capable(batch) && ecnUnacked) || Negotiates(batch))
      ensures npkt.ect == (Negotiates(batch) && ecnSyn)
    {
      var ecnecho, ect := EcnBits(opkt, batch);
      var sack := sacker.AppendAck(opkt.seqno, before);
      npkt := AckPacket(sacker.acker.Seqno(), ecnecho, ect, sack);
    }

    /** Sends the acknowledgement and records it. `more` is what has arrived since
        the trace was last extended. */
    method Answer(opkt: Packet, ghost before: set<int>, ghost more: seq<Packet>, ghost was: int)
      returns (npkt: AckPacket)
      requires sacker.Valid() && Faithful(sacker.sf.Contents(), sacker.acked, before)
      requires sacker.Keys() == if opkt.seqno < 0 then before else before + {opkt.seqno}
      requires Window(sacker.acker.seen[..], Recorded(sacker.acker.log), Cumulative(before), sacker.acker.maxseen)
      requires Consistent(trace, save, was) && -1 <= was <= sacker.acker.Seqno()
      requires sacker.acker.log == ToLog(trace.arrivals + more) && bytes == Delivered(sacker.acker.log)
      requires ecnUnacked == Latch(trace.batches) && !timerPending
      requires forall p :: p in Held(save) + more <==> p == opkt || p in Held(save)
      requires History(StackAfter(sacker.sf.Contents(), sacker.Keys(), opkt.seqno, sacker.sf.size),
                       trace.arrivals + more, sacker.sf.size)
      modifies this`ecnUnacked, this`save, this`trace, sacker, sacker.sf, sacker.sf.sfe
      ensures Valid() && save == None
      ensures trace == Acknowledge(old(trace).(arrivals := old(trace).arrivals + more),
                                   old(Held(save)) + more, npkt)
      ensures npkt.seqno == sacker.acker.Seqno()
      ensures npkt.sack == if opkt.seqno < 0 then [] else sacker.sf.Contents()
    {
      hide Faithful, Consistent, Window, Latch;
      ghost var batch, ackno := Held(save) + more, sacker.acker.Seqno();
      ghost var after := trace.batches + [batch];
      assert opkt in batch;
      npkt := Ack(opkt, before, batch);
      assert ecnUnacked == Latch(after) && npkt.ecnecho == Echo(after) by {
        LatchAppend(trace.batches, batch);
      }
      ghost var trace' := Acknowledge(trace.(arrivals := trace.arrivals + more), batch, npkt);
      assert Consistent(trace', None, ackno) by {
        ConsistentAck(trace, save, was, more, ackno, npkt);
      }
      save := None;
      trace := trace';
    }

    /** Takes a packet into the window and the trace. */
    method Accept(pkt: Packet)
      requires Valid() && 0 < pkt.size
      modifies this`bytes, sacker.acker, sacker.acker.seen
      ensures sacker.Valid() && (sacker.acker.seen == old(sacker.acker.seen) || fresh(sacker.acker.seen))
      ensures sacker.acker.log == ToLog(trace.arrivals + [pkt])
      ensures bytes == Delivered(sacker.acker.log)
      ensures sacker.Keys() == if pkt.seqno < 0 then old(sacker.Keys()) else old(sacker.Keys()) + {pkt.seqno}
      ensures Window(sacker.acker.seen[..], Recorded(sacker.acker.log), old(sacker.acker.next), sacker.acker.maxseen)
      ensures old(sacker.acker.next) <= sacker.acker.next
    {
      hide Faithful, Consistent, Window, Latch, Recorded;
      LogAppend(trace.arrivals, pkt);
      ArrivalEffect(sacker.acker.log, pkt);
      var numToDeliver := sacker.acker.Update(pkt.seqno, pkt.size);
      if numToDeliver != 0 {
        bytes := bytes + numToDeliver;
      }
    }

    /** Holds back the acknowledgement of an in-order packet. */
    method Hold(pkt: Packet, ghost before: set<int>, ghost was: int)
      requires sacker.Valid() && Faithful(sacker.sf.Contents(), sacker.acked, before)
      requires sacker.Keys() == if pkt.seqno < 0 then before else before + {pkt.seqno}
      requires Consistent(trace, None, was) && was <= sacker.acker.Seqno() == pkt.seqno
      requires sacker.acker.log == ToLog(trace.arrivals + [pkt]) && bytes == Delivered(sacker.acker.log)
      requires ecnUnacked == Latch(trace.batches) && delays
      requires History(StackAfter(sacker.sf.Contents(), sacker.Keys(), pkt.seqno, sacker.sf.size),
                       trace.arrivals + [pkt], sacker.sf.size)
      modifies this`save, this`timerPending, this`trace
      ensures Valid() && save == Some(pkt)
      ensures trace == old(trace).(arrivals := old(trace).arrivals + [pkt])
    {
      hide Faithful, Consistent, Window, Latch, Recorded;
      save := Some(pkt);
      timerPending := true;
      if pkt.seqno >= 0 {
        FaithfulDelay(sacker.sf.Contents(), sacker.acked, before, pkt.seqno, sacker.sf.size);
      }
      ConsistentHold(trace, was, pkt, sacker.acker.Seqno());
      trace := trace.(arrivals := trace.arrivals + [pkt]);
    }

    /** Whether the acknowledgement of a packet just taken in can wait: it is the
        last one in order and, when gaps are to be answered at once, the highest. */
    predicate InOrder(pkt: Packet)
      reads this, sacker.acker
    {
      delays && pkt.seqno == sacker.acker.Seqno() && !(immediateAck && pkt.seqno < sacker.acker.maxseen)
    }

    /** The last packet in order waits when it is the highest one seen; one that fills a
        gap waits unless gaps are answered at once; nothing else waits, and nothing in a
        sink that does not delay. */
    lemma WaitsWhen(pkt: Packet)
      ensures delays && pkt.seqno == sacker.acker.Seqno() == sacker.acker.maxseen ==> InOrder(pkt)
      ensures delays && pkt.seqno == sacker.acker.Seqno() < sacker.acker.maxseen ==> (InOrder(pkt) <==> !immediateAck)
      ensures !delays || pkt.seqno != sacker.acker.Seqno() ==> !InOrder(pkt)
    {}

    /** A data packet arrives: it is acknowledged now, or held back. */
    method Recv(pkt: Packet) returns (out: Option<AckPacket>)
      requires Valid() && 0 < pkt.size
      modifies this, sacker, sacker.acker, sacker.acker.seen, sacker.sf, sacker.sf.sfe
      ensures Valid() && (sacker.acker.seen == old(sacker.acker.seen) || fresh(sacker.acker.seen))
      ensures sacker.Keys() == if pkt.seqno < 0 then old(sacker.Keys()) else old(sacker.Keys()) + {pkt.seqno}
      ensures old(sacker.acker.Seqno()) <= sacker.acker.Seqno()
      ensures out.None? <==> old(save).None? && InOrder(pkt)
      ensures out.Some? ==>
                && save == None
                && trace == Acknowledge(old(trace).(arrivals := old(trace).arrivals + [pkt]),
                                        old(Held(save)) + [pkt], out.value)
                && out.value.seqno == sacker.acker.Seqno()
                && out.value.sack == if pkt.seqno < 0 then [] else sacker.sf.Contents()
      ensures out.None? ==> save == Some(pkt) && trace == old(trace).(arrivals := old(trace).arrivals + [pkt])
    {
      hide Faithful, Consistent, Window, Latch, Recorded, History, StackAfter, Next, ToLog;
      ghost var before := sacker.Keys();
      Accept(pkt);
      HistoryStep(sacker.sf.Contents(), trace.arrivals, pkt, sacker.sf.size);
      if !timerPending && InOrder(pkt) {
        Hold(pkt, before, old(sacker.acker.Seqno()));
        return None;
      }
      if timerPending {
        timerPending := false;
      }
      var npkt := Answer(pkt, before, [pkt], old(sacker.acker.Seqno()));
      out := Some(npkt);
    }

    /** `Recv` as the network sees it: the acknowledgements it causes. */
    method Deliver(pkt: Packet) returns (more: seq<AckPacket>)
      requires Valid() && 0 < pkt.size
      modifies Footprint()
      ensures Valid() && fresh(Footprint() - old(Footprint())) && trace.acks == old(trace.acks) + more
      ensures sacker.Keys() == if pkt.seqno < 0 then old(sacker.Keys()) else old(sacker.Keys()) + {pkt.seqno}
      ensures old(sacker.acker.Seqno()) <= sacker.acker.Seqno()
    {
      hide DelAckSink.Valid, Recorded;
      var ack := Recv(pkt);
      more := if ack.Some? then [ack.value] else [];
    }

    /** Packets delivered one after the other. */
    method DeliverEach(packets: seq<Packet>) returns (more: seq<AckPacket>)
      requires Valid() && Deliverable(packets)
      modifies Footprint()
      ensures Valid() && fresh(Footprint() - old(Footprint())) && trace.acks == old(trace.acks) + more
      ensures sacker.Keys() == old(sacker.Keys()) + SeqnosIn(packets)
      ensures old(sacker.acker.Seqno()) <= sacker.acker.Seqno()
    {
      hide DelAckSink.Valid, Recorded;
      more := [];
      var j := 0;
      while j < |packets|
        invariant 0 <= j <= |packets| && Valid() && fresh(Footprint() - old(Footprint()))
        invariant trace.acks == old(trace.acks) + more
        invariant sacker.Keys() == old(sacker.Keys()) + SeqnosIn(packets[..j])
        invariant old(sacker.acker.Seqno()) <= sacker.acker.Seqno()
      {
        assert packets[..j + 1] == packets[..j] + [packets[j]];
        var acks := Deliver(packets[j]);
        more := more + acks;
        j := j + 1;
      }
      assert packets[..j] == packets;
    }

    /** The delay timer fires. */
    method Timeout() returns (out: Option<AckPacket>)
      requires Valid() && timerPending
      modifies this, sacker, sacker.sf, sacker.sf.sfe
      ensures Valid() && save == None && out.Some? && Footprint() == old(Footprint())
      ensures trace == Acknowledge(old(trace), old(Held(save)), out.value)
      ensures out.value.seqno == sacker.acker.Seqno()
    {
      timerPending := false;
      out := None;
      if save.Some? {
        var pkt := save.value;
        AnsweredAlready(sacker.sf.Contents(), sacker.acked, sacker.Keys(), pkt.seqno, sacker.sf.size);
        assert Held(save) + [] == Held(save);
        assert trace.arrivals + [] == trace.arrivals;
        var npkt := Answer(pkt, sacker.Keys(), [], sacker.acker.Seqno());
        out := Some(npkt);
      }
    }
  }
}
