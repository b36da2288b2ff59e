# A verified model of the data-centre ns-2 transport and load balancing code

The repository extends ns-2.34 with DCTCP, packet and flowcell spraying over
leaf-spine networks, and load balancing that knows about failed links. This
project models its stateful cores in Dafny and proves what they are for. `dafny
verify dfyconfig.toml` checks the whole project.

| file | what it models |
|---|---|
| `ReceiveLog.dfy`, `Acker.dfy` | the receive window of `tcp-sink.cc`: what a receiver should know after a sequence of arrivals, and the circular buffer that doubles on demand and never clears what it leaves behind |
| `SackHistory.dfy`, `SackReports.dfy`, `Sacker.dfy` | SACK reporting (section 4 of RFC 2018): the reference list of runs, exactly which runs a bounded history still reports, and the stack and scans that implement it |
| `DelAckSink.dfy` | delayed acknowledgements (section 4.2 of RFC 2581) and the congestion echo (section 6.1.3 of RFC 3168), with a ghost trace of everything a sink has accepted and sent |
| `Rotation.dfy` | going round a ring and stopping at live positions: halting and fairness, shared by the next four |
| `SpineClasses.dfy`, `Spraying.dfy` | classification of spines when a flow starts, choice of the spine table (SVT), and rotation over it |
| `SprayFlow.dfy`, `DrawShares.dfy` | exactly when a flow always has a spine to go to, a whole flow, and the share of the draws each set of spines gets |
| `Wfcs.dfy`, `WfcsAgent.dfy` | weighted flowcell spraying with several failures: the exact schedule, and the bounded search refined against it |
| `RingOrder.dfy`, `WfcsExact.dfy` | the order in which a rotation meets the ring, and exactly when the schedule is met |
| `WeightedPick.dfy` | the probabilistic variant |
| `MultiPath.dfy` | random packet spraying and the forward search for a live slot |
| `Sender.dfy`, `SenderLaws.dfy`, `Connection.dfy` | the SACK sender with its sequence variables, fast recovery, timeouts and sending loop, and what its decisions come to; a whole connection over a network that loses, duplicates and reorders |
| `Dctcp.dfy`, `DctcpLaws.dfy`, `CutLaws.dfy` | the DCTCP estimator and the window cuts (section 3.3 of RFC 8257): convergence, what alpha is over every trace, the value of every cut |
| `Rtt.dfy`, `RttLaws.dfy` | the fixed-point round-trip estimator (section 2 of RFC 2988): its envelope, and how far each sample and timeout moves it |
| `Red.dfy` | RED, the spreading of its early drops, and its use as the DCTCP marker |
| `RanVar.dfy` | sampling by inverse CDF |

Objects that the source updates in place are classes, and each of their methods is
proved against a specification function or relation; the properties are proved
about those. Doubles are modelled as reals. Random numbers and what the application
and the network do are parameters: every result holds for all of them.

## What the proofs found

- **SACK completeness.** That every run is reported as long as their number has not
  exceeded the block limit since the stack was last empty is false: with one block
  and arrivals 4, 2, 0, 1 the stack is empty and [4,5) is not reported
  (`EmptyStackIsNotEnough`). A run is reported if and only if, ever since its last
  packet was acknowledged, fewer other runs than the limit had been acknowledged
  more recently (`ReportedIff`, `EveryRunReportedIff`); starting from an
  acknowledgement with nothing above it instead of an empty stack also suffices
  (`ReplayComplete`).
- **SVT choice.** A flow can be mapped to an empty set of spines, on which the
  rotation does not halt. `AlwaysSomewhereIff` says exactly in which setups no draw
  does that, and `NeverStrandedIff` in which no remapping does so later either.
- **WFCS.** Two pieces of code judge a spine: the classification lets a full failure
  prevail, `isSpineFailed` takes the first one listed. They agree when no fully
  failed spine lists a partial failure first (`AgreeIff`). The exact schedule holds
  if and only if they agree or, going round the ring from the highest healthy spine,
  the partially failed spines come before the mixed ones with no healthy spine
  between them (`WfcsScheduleIff`). With no partially failed spine the weak turn
  takes the next link unchecked or a mixed spine, and every flowcell takes a healthy
  spine if and only if no spine is mixed and spines 0 and n - 1 are healthy
  (`NoPartialIff`).
- **Weighted pick.** Integer division gives weight zero to every uplink whose ratio
  is above 10, not only to full failures (`ZeroWeightIff`, `PartialIsShutOut`).
- **Inverse CDF.** Rounding interpolated values up breaks monotonicity unless every
  value reached by interpolation is whole (`SampleIncreasingIff`).
- **RTT.** The deviation is at most max(4(b - a), 2b) even across the deep-backoff
  step. Differences are kept in a 16-bit short. For measurements in [a, b] the
  envelope holds over every run if and only if b - a fits the short and the largest
  deviation in ticks, b/2, stands right in its wrap: modulo 65536 at most 32768 and,
  above the first wrap, at least b - a (`EnvelopeIff`). Up to b = 65537 only the
  first part matters (`TameBelow`).
- **RED as a marker.** A queue of one packet is never above the threshold, so the
  threshold that acts is max(K, 2); the first arrival of an excursion is let
  through unmarked; above the threshold an arrival that cannot carry a mark is
  dropped.

## Model

| member | source | states |
|---|---|---|
| ReceiveLog.OrderIndependence | code/ns-2.34/tcp/tcp-sink.cc:100-177 | Two arrival sequences of the same packets, in any order and with any duplicates, expect the same next packet, and deliver the same number of bytes when every sequence number has one size. |
| ReceiveLog.RecordedKeys | code/ns-2.34/tcp/tcp-sink.cc:144-177 | The packets on record are exactly those that arrived (negative numbers ignored). |
| ReceiveLog.RecordedSizes | code/ns-2.34/tcp/tcp-sink.cc:144-177 | With one size per sequence number, what is recorded for a packet is its size. |
| ReceiveLog.NextGrows | code/ns-2.34/tcp/tcp-sink.cc:161-173 | The expected packet never moves back. |
| ReceiveLog.DeliversWhole | code/ns-2.34/tcp/tcp-sink.cc:161-173 | When all packets have one size, what has been delivered is that size for every packet below the expected one. |
| Ackers.MaskIsRemainder | code/ns-2.34/tcp/tcp-sink.cc:71-77 | Masking a non-negative number with a power of two minus one is taking the remainder, so slot indices may be read either way. |
| Ackers.SlotsApart | code/ns-2.34/tcp/tcp-sink.cc:66-85 | Numbers closer together than the buffer is long never share a slot: why a window in a circular buffer is well defined. |
| Ackers.WindowSet | code/ns-2.34/tcp/tcp-sink.cc:144-159 | Writing the slot of a packet inside the window records that packet and disturbs no other packet of the window, stale slots or not. |
| Ackers.Acker.constructor | code/ns-2.34/tcp/tcp-sink.cc:50-55 | A new receiver has the empty window. |
| Ackers.Acker.Reset | code/ns-2.34/tcp/tcp-sink.cc:57-64 | Clearing the buffer gives the window of an empty log, whatever the buffer size has grown to. |
| Ackers.Acker.ResizeBuffers | code/ns-2.34/tcp/tcp-sink.cc:66-85 | Doubling the buffer changes no packet of the window and keeps the size a power of two. |
| Ackers.Acker.Update | code/ns-2.34/tcp/tcp-sink.cc:100-177 | After any packet: `next` is the least sequence number not received, a slot in [next, maxseen + 1] is non-zero exactly for a received packet and holds its size, the duplicate flag is set exactly when the packet had arrived before (or is negative), the bytes returned are exactly what became deliverable. |
| Ackers.Acker.Admit | code/ns-2.34/tcp/tcp-sink.cc:116-177 | The same for a buffer already large enough, in terms of the recorded sizes; the window still reads correctly from the old `next` on. |
| Ackers.Acker.RaiseMaxseen | code/ns-2.34/tcp/tcp-sink.cc:116-132 | A packet above everything seen clears what was skipped and the slot after it, so stale data never reads as received. |
| Ackers.Acker.Collect | code/ns-2.34/tcp/tcp-sink.cc:161-173 | The delivery loop stops exactly at the first packet not received and returns the recorded bytes passed over. |
| SackHistory.RunGrows | code/ns-2.34/tcp/tcp-sink.cc:718-749 | One more packet either leaves a run alone or merges it into the run around the new packet, which then covers it. |
| SackHistory.StackStep | code/ns-2.34/tcp/tcp-sink.cc:621-774 | The bounded history stays the most recent part of the list of all runs above the acknowledgement, most recent first, through every acknowledgement and however many blocks are allowed. |
| SackHistory.RecencyListsRuns | code/ns-2.34/tcp/tcp-sink.cc:679-749 | Every block listed is a maximal run of received packets strictly above the cumulative acknowledgement; no two overlap or touch. |
| SackHistory.RecencyListsAllRuns | code/ns-2.34/tcp/tcp-sink.cc:679-762 | The unbounded list misses no run once every packet above the acknowledgement has been acknowledged. |
| SackHistory.RecencyAbove | code/ns-2.34/tcp/tcp-sink.cc:718-749 | A packet above the acknowledgement changes no listed run but those its own run swallows. |
| SackHistory.RecencyBelow | code/ns-2.34/tcp/tcp-sink.cc:694-749 | When the acknowledgement moves, exactly the runs it swallows leave the list. |
| SackHistory.CompleteStep | code/ns-2.34/tcp/tcp-sink.cc:718-762 | After one acknowledgement the bounded history is complete if and only if all it had forgotten has just been swallowed and the runs fit. |
| SackHistory.FaithfulDelay | code/ns-2.34/tcp/tcp-sink.cc:449-470 | Holding back the acknowledgement of an in-order packet leaves the history right, and acknowledging it would not change the stack. |
| SackHistory.ReplayIsPrefix | code/ns-2.34/tcp/tcp-sink.cc:621-774 | Over every sequence of acknowledged packets the stack lists the most recent runs and never more than the limit. |
| SackHistory.ReplayComplete | code/ns-2.34/tcp/tcp-sink.cc:718-762 | If the number of runs has not exceeded the limit since an acknowledgement with nothing above it, every run is reported. |
| SackHistory.EmptyStackIsNotEnough | code/ns-2.34/tcp/tcp-sink.cc:718-762 | A concrete arrival order for which a stack that was empty, and never needed more than its limit since, misses the only run: "since the stack was last empty" is the wrong starting point. |
| SackReports.ReportedIff | code/ns-2.34/tcp/tcp-sink.cc:718-762 | Exactly when one run is still reported: if and only if, ever since its last packet was acknowledged, fewer other runs than the limit had been acknowledged more recently. |
| SackReports.EveryRunReportedIff | code/ns-2.34/tcp/tcp-sink.cc:718-762 | Exactly when every run above the acknowledgement is reported, for every arrival order and limit. |
| SackReports.RecencySplit | code/ns-2.34/tcp/tcp-sink.cc:718-762 | In the list of runs a run stands right behind those acknowledged after it. |
| Sackers.SackStack.Push | code/ns-2.34/tcp/tcp-sink.cc:521-527 | Pushing keeps the order of the older blocks and discards the bottom one of a full stack. |
| Sackers.SackStack.Pop | code/ns-2.34/tcp/tcp-sink.cc:529-535 | Popping removes that block and keeps the order of the others. |
| Sackers.SackStack.Reset | code/ns-2.34/tcp/tcp-sink.cc:513-519 | Resetting empties the stack. |
| Sackers.SackStack.Sift | code/ns-2.34/tcp/tcp-sink.cc:718-749 | The loop over older blocks removes exactly the covered ones it reaches and reports the others while there is room; only when the report is full does it leave blocks unreached. |
| Sackers.Sacker.FirstHole | code/ns-2.34/tcp/tcp-sink.cc:679-692 | The scan to the right ends at the first slot that reads zero, or past the highest packet. |
| Sackers.Sacker.LastHole | code/ns-2.34/tcp/tcp-sink.cc:699-706 | The scan to the left ends just above the last slot that reads zero above the acknowledgement. |
| Sackers.Sacker.RecentBlock | code/ns-2.34/tcp/tcp-sink.cc:677-716 | The block found by scanning the circular buffer is the maximal run around the packet; at or below the acknowledgement, where slots may be stale, its right edge is still at most the expected packet. |
| Sackers.Sacker.FillBlocks | code/ns-2.34/tcp/tcp-sink.cc:643-762 | The blocks of the acknowledgement and the new stack are those of the reference history. |
| Sackers.Sacker.AppendAck | code/ns-2.34/tcp/tcp-sink.cc:621-774 | Every acknowledgement reports exactly the stack, the stack follows the reference history, and the first block is the run of the triggering packet when that lies above the acknowledgement. |
| Sackers.PushedOver | code/ns-2.34/tcp/tcp-sink.cc:521-527 | A block the covering loop never reached is exactly the one the overflowing push discards. |
| Sackers.SameCover | code/ns-2.34/tcp/tcp-sink.cc:679-698 | A right edge read from stale slots removes the same blocks as the true one would. |
| EcnEcho.LatchMeansUnansweredMark | code/ns-2.34/tcp/tcp-sink.cc:334-358 | The latch is set if and only if some acknowledged batch carried a mark and no later batch carried the sender's response without a new mark. |
| EcnEcho.EchoIffPending | code/ns-2.34/tcp/tcp-sink.cc:334-358 | With ECN-capable data an acknowledgement should carry the echo if and only if some batch up to its own carried a mark that no batch since has answered. |
| Sinks.DelAckSink.EchoesUntilAnswered | code/ns-2.34/tcp/tcp-sink.cc:334-358 | The acknowledgements a sink has sent, in every state it can reach with ECN-capable arrivals: one carries the echo if and only if a mark in its own or an earlier batch is still unanswered. So every mark is echoed at once, and until an acknowledged batch carries the response without a mark. |
| Sinks.ConsistentAck | code/ns-2.34/tcp/tcp-sink.cc:275-370 | Sending an acknowledgement keeps: every accepted packet acknowledged once or held back, one acknowledgement per batch with the right echo, cumulative numbers never decreasing. |
| Sinks.ConsistentHold | code/ns-2.34/tcp/tcp-sink.cc:449-470 | Holding one packet back keeps the same. |
| Sinks.HistoryStep | code/ns-2.34/tcp/tcp-sink.cc:429-480 | The stack after one more arrival is what it would be had every packet been acknowledged at once. |
| Sinks.ReportsAreRuns | code/ns-2.34/tcp/tcp-sink.cc:621-774 | What a receiver reports, delayed acknowledgements included: at most the allowed number of disjoint maximal runs above the acknowledgement, and every run exactly when each has always fitted. |
| Sinks.AnsweredAlready | code/ns-2.34/tcp/tcp-sink.cc:482-491 | Acknowledging the last in-order packet again leaves the stack as it was. |
| Sinks.DelAckSink.EcnBits | code/ns-2.34/tcp/tcp-sink.cc:334-358 | The latch and the echo depend on the batch alone, whichever of its two packets carried the bits. |
| Sinks.DelAckSink.Ack | code/ns-2.34/tcp/tcp-sink.cc:275-370 | The acknowledgement carries the cumulative number, the SACK blocks, the echo and its own ECN capability, and updates latch and history accordingly. |
| Sinks.DelAckSink.Accept | code/ns-2.34/tcp/tcp-sink.cc:440-445 | Taking a packet in adds it to the received set and its newly deliverable bytes to the byte count. |
| Sinks.DelAckSink.Hold | code/ns-2.34/tcp/tcp-sink.cc:465-469 | The held packet becomes the one saved packet and the timer is set; nothing else changes. |
| Sinks.DelAckSink.WaitsWhen | code/ns-2.34/tcp/tcp-sink.cc:449-470 | Which packets may wait: the last in order when it is the highest one seen; one that fills a gap only with immediate acknowledgements off; nothing else. |
| Sinks.DelAckSink.Recv | code/ns-2.34/tcp/tcp-sink.cc:429-480 | An acknowledgement is withheld if and only if delaying is on, nothing is held yet, the packet is the last in order and (with immediate acknowledgements on) the highest; otherwise it goes out at once for exactly the held packet and this one. The timer is pending iff a packet is held. |
| Sinks.DelAckSink.Timeout | code/ns-2.34/tcp/tcp-sink.cc:482-491 | The timer sends exactly one acknowledgement, for exactly the held packet. |
| Rotation.FirstLiveIsNearest | code/ns-2.34/tcp/tcp.cc:2030-2056 | The search stops at a live position, the nearest one round the ring. |
| Rotation.SearchEnds | code/ns-2.34/tcp/tcp.cc:1541-1574 | Where any search that looks at each position in turn ends, with or without a live one. |
| Rotation.NextMember | code/ns-2.34/tcp/tcp.cc:2030-2056 | From one live position the search ends at the next one in order. |
| Rotation.RoundIsFair | code/ns-2.34/tcp/tcp.cc:2030-2056 | From any position, as many turns as there are live positions land on each of them exactly once. |
| Rotation.RoundsAreFair | code/ns-2.34/tcp/tcp.cc:2030-2056 | Any number of whole rounds shares the turns equally. |
| Rotation.RoundOfPicks | code/ns-2.34/tcp/tcp.cc:2030-2056 | A list of successive picks as long as there are live positions holds each live position once and nothing else. |
| Rotation.NeverDead | code/ns-2.34/tcp/tcp.cc:2030-2056 | No turn lands on a dead position. |
| SpineClasses.ClassAppend | code/ns-2.34/tcp/tcp.cc:953-1025 | One more failure changes the class of its own spine only, by the rule of the loop; the class itself is defined by which failures the list holds. |
| SpineClasses.ClassesAppend | code/ns-2.34/tcp/tcp.cc:953-1025 | The same for all spines at once. |
| SpineClasses.DirectOrderIndependent | code/ns-2.34/tcp/tcp.cc:954-991 | Which spines are directly failed, and how, does not depend on the order of the list; nor does which are free of failure. |
| SpineClasses.TallyAll | code/ns-2.34/tcp/tcp.cc:893-906 | The five classes partition the spines. |
| SpineClasses.IndirectMembers | code/ns-2.34/tcp/tcp.cc:893-906 | The no-failure set is the union of the three classes without direct failure; with the direct counters it adds up to all spines. |
| Spraying.SprayAgent.constructor | code/ns-2.34/tcp/tcp.cc:888-906 | At the start every spine is in the no-failure tables and all counters are zero. |
| Spraying.SprayAgent.ClassifyOne | code/ns-2.34/tcp/tcp.cc:953-1025 | One pass of the loop keeps all six tables and five counters equal to the classes of the failures seen so far. |
| Spraying.SprayAgent.FirstDirectFailure | code/ns-2.34/tcp/tcp.cc:956-974 | The first direct failure of a spine moves it out of the tables of indirect failures, counters included. |
| Spraying.SprayAgent.SharedSpine | code/ns-2.34/tcp/tcp.cc:975-987 | A later direct failure of the same spine matters only when it is the first full one. |
| Spraying.SprayAgent.IndirectFailure | code/ns-2.34/tcp/tcp.cc:992-1024 | A failure elsewhere matters only to a spine with no failure so far. |
| Spraying.SprayAgent.Classify | code/ns-2.34/tcp/tcp.cc:953-1025 | For any failure list the tables and counters are those of the reference classes. |
| Spraying.SprayAgent.Seek | code/ns-2.34/tcp/tcp.cc:2030-2056 | The loop over a table halts at the nearest spine in it. |
| Spraying.SprayAgent.NextValidLink | code/ns-2.34/tcp/tcp.cc:2030-2056 | For a non-empty SVT the rotation halts and takes the next member of it; for an unknown SVT number it takes the next link. |
| Spraying.SprayAgent.NextLinks | code/ns-2.34/tcp/tcp.cc:2030-2056 | Successive calls over a fixed SVT take successive turns; any |SVT| of them return each member exactly once and nothing else. |
| Spraying.SprayAgent.RemapSvt | code/ns-2.34/tcp/tcp.cc:1360-1373 | Dynamic remapping by the bytes sent so far. |
| Spraying.SprayAgent.ChooseSvt | code/ns-2.34/tcp/tcp.cc:1034-1094 | The bandwidth draw selects the SVT of the reference choice for every outcome of the draws; how often each is selected is stated by the DrawShares rows. |
| Spraying.SprayAgent.NextFlowcell | code/ns-2.34/tcp/tcp.cc:1360-1374 | Dynamic remapping followed by rotation always ends on a member of the SVT in force, and stays able to do so. |
| Spraying.BandwidthBounds | code/ns-2.34/tcp/tcp.cc:1034-1042 | A class has bandwidth only if it has a spine; indirect bandwidth is part of the healthy bandwidth. |
| Spraying.LiveByClass | code/ns-2.34/tcp/tcp.cc:2030-2056 | An SVT is non-empty exactly when its counters say so. |
| Spraying.ChoiceIsEmptyOnlyWhen | code/ns-2.34/tcp/tcp.cc:1034-1094 | Which SVT a draw can leave empty: the no-failure one when every spine is directly failed, the failure-free one when every spine has some failure, and never a set of failed spines. |
| DrawShares.TallyIsSize | code/ns-2.34/tcp/tcp.cc:893-906 | A class counter is the number of spines of that class. |
| DrawShares.ShareOfPartial | code/ns-2.34/tcp/tcp.cc:1034-1072 | Of the equally likely first draws exactly (partially failed spines) * (capacity / ratio) send a flow to those spines when it may go there, and none otherwise; the draws number that share plus (spared spines) * capacity, times n - 1 towards a failed leaf. |
| DrawShares.ShareOfIndirect | code/ns-2.34/tcp/tcp.cc:1076-1093 | Of the other flows, those that may take spines with an indirect failure go to them on exactly (such spines) * capacity of the second draws. |
| DrawShares.ShareOfIndirectPartial | code/ns-2.34/tcp/tcp.cc:1076-1093 | Of those, exactly (spines with an indirect partial failure) * capacity of the third draws go to the indirect partial failures, the rest to the full ones. |
| DrawShares.RestOfFlows | code/ns-2.34/tcp/tcp.cc:1072-1093 | Every other flow goes to the spines without a direct failure where indirect ones are ignored or absent, and otherwise to the spines free of failure. |
| SprayFlows.ChosenIs | code/ns-2.34/tcp/tcp.cc:1072-1093 | When no spine is free of failure: which SVT each draw leads to, by the settings and by whether some spine has no direct failure. |
| SprayFlows.AlwaysSomewhereIff | code/ns-2.34/tcp/tcp.cc:1034-1094 | Exactly when every draw gives a non-empty SVT, from the failures and the settings alone: a spine is free of failure; or some has no direct failure and indirect ones are ignored or may be taken; or all are directly failed and all draws fall on the partial ones. |
| SprayFlows.NeverStrandedIff | code/ns-2.34/tcp/tcp.cc:1360-1374 | Exactly when that also holds after any sequence of dynamic remappings, so that the rotation of every flow halts at every flowcell. |
| SprayFlows.RemapLaw | code/ns-2.34/tcp/tcp.cc:1360-1373 | A flow is remapped exactly off the partially failed spines above one byte threshold and off the indirectly failed ones above the other, and to which set. |
| SprayFlows.FreeSpineSuffices | code/ns-2.34/tcp/tcp.cc:1034-1094 | One spine free of failure and two uplinks are enough for that. |
| SprayFlows.SprayFlowcells | code/ns-2.34/tcp/tcp.cc:1346-1374 | The flowcells of a flow: each goes to the next live spine, after the one before, of the SVT that the bytes sent so far lead to. |
| SprayFlows.SprayWholeFlow | code/ns-2.34/tcp/tcp.cc:953-1094 | A whole flow, from its failure list through the draw to every flowcell, in every setup in which no flow is stranded. |
| Spraying.ChoiceSpins | code/ns-2.34/tcp/tcp.cc:1034-1094 | With one spine free of any failure the chosen SVT, and any it may be remapped to, is non-empty. |
| Spraying.RemapKeepsSpinning | code/ns-2.34/tcp/tcp.cc:1360-1374 | Remapping never leads to an empty SVT. |
| Spraying.TotalIsPositive | code/ns-2.34/tcp/tcp.cc:1034-1044 | With two uplinks and one spine free of failure the draw is well defined. |
| FlowcellSchedule.HealthyPhase | code/ns-2.34/tcp/tcp.cc:1553-1572 | A period opens with one turn of the healthy rotation per flowcell, for the healthy weight. |
| FlowcellSchedule.WeakPhase | code/ns-2.34/tcp/tcp.cc:1553-1572 | It closes with one turn of the weak rotation per partially failed spine. |
| FlowcellSchedule.PeriodEnds | code/ns-2.34/tcp/tcp.cc:1553-1562 | After a period the two counters are again at the start of one. |
| FlowcellSchedule.Schedule | code/ns-2.34/tcp/tcp.cc:1531-1574 | Every period gives each healthy link exactly the ratio, each weak link exactly one flowcell, every other link none. |
| FlowcellSchedule.UncheckedTurn | code/ns-2.34/tcp/tcp.cc:1531-1574 | Without a weak link the counters never move: each flowcell takes the next healthy link, but the one that opens a period (not the first) the next link unchecked. |
| FlowcellSchedule.NeverElsewhere | code/ns-2.34/tcp/tcp.cc:1531-1574 | With a weak link every flowcell takes a healthy or a weak link. |
| WeightedFlowcells.SpineFailedMeans | code/ns-2.34/tcp/tcp.cc:2006-2025 | What the first listed failure says about a spine. |
| WeightedFlowcells.AgreeIff | code/ns-2.34/tcp/tcp.cc:2006-2025 | The first listed failure and the classification agree if and only if no fully failed spine lists a partial failure first; so they agree without mixed spines. |
| RingOrder.RoundAscends | code/ns-2.34/tcp/tcp.cc:2030-2056 | One round from outside the live positions meets them in the order of their distance from where it starts. |
| RingOrder.MeetsExactlyIff | code/ns-2.34/tcp/tcp.cc:1541-1574 | Turns over the live positions meet a given part of them exactly, once each, if and only if that part comes first from where they start. |
| RingOrder.RoundsEnd | code/ns-2.34/tcp/tcp.cc:1541-1574 | Any whole number of rounds ends at the last live position at or before where it started. |
| ExactSchedule.HomeIs | code/ns-2.34/tcp/tcp.cc:1531-1574 | The weak turns of every period start at the last healthy link before the period. |
| ExactSchedule.AllHomes | code/ns-2.34/tcp/tcp.cc:1531-1574 | When the links due a flowcell stand in one stretch, every period leaves the next one in front of it. |
| ExactSchedule.TwoPeriodsSuffice | code/ns-2.34/tcp/tcp.cc:1531-1574 | If the first two periods are right, the links due a flowcell stand in one stretch. |
| ExactSchedule.ExactIff | code/ns-2.34/tcp/tcp.cc:1531-1574 | Every period gives every link its due if and only if either all weak links are due one flowcell, or those that are come first from the highest healthy link, with no healthy link between two of them. |
| ExactSchedule.AlwaysHealthyIff | code/ns-2.34/tcp/tcp.cc:1531-1574 | With no link due one flowcell, every flowcell takes a healthy link if and only if there is no weak link and both ends of the ring are healthy. |
| WfcsConditions.WfcsScheduleIff | code/ns-2.34/tcp/tcp.cc:1531-1574 | Exactly when the WFCS schedule is met in every period, for every list of failures with a healthy and a partially failed spine: the two judgements agree, or going round from the highest healthy spine the partially failed spines come before the mixed ones with no healthy spine between them. |
| WfcsConditions.NoPartialIff | code/ns-2.34/tcp/tcp.cc:1531-1574 | Exactly when no flowcell takes a failed spine although none is partially failed: no spine lists a partial failure first, and spines 0 and n - 1 are healthy. |
| WeightedFlowcells.HealthyAgree | code/ns-2.34/tcp/tcp.cc:2006-2025 | Both always agree on which spines are healthy. |
| WeightedFlowcells.FacingIsSound | code/ns-2.34/tcp/tcp.cc:1172-1173 | With a healthy spine the weight and the counters are positive. |
| WeightedFlowcells.WfcsSchedule | code/ns-2.34/tcp/tcp.cc:1531-1574 | The WFCS schedule: in every period of healthy spines * ratio + partially failed spines flowcells each healthy spine takes exactly ratio, each partially failed spine one, each fully failed spine none. |
| WeightedFlowcells.NeverOnListedFull | code/ns-2.34/tcp/tcp.cc:1541-1574 | While some spine lists a partial failure first, no flowcell takes a spine that lists a full failure first. |
| WfcsConditions.MixedSpineIsUsed | code/ns-2.34/tcp/tcp.cc:1553-1562 | An illustration: a spine with a partial failure towards one leaf of the pair and a full one towards the other takes a flowcell in the weak turn. |
| WfcsConditions.FullFailureIsUsed | code/ns-2.34/tcp/tcp.cc:1541-1574 | An illustration: a setting with a full failure only in which the second flowcell takes the fully failed spine. |
| WfcsAgents.WfcsAgent.constructor | code/ns-2.34/tcp/tcp.cc:1271 | A new flow starts the schedule. |
| WfcsAgents.WfcsAgent.SendPacket | code/ns-2.34/tcp/tcp.cc:1531-1574 | For every failure list with a direct failure and a healthy spine, packet k of the flow takes the link the schedule has for flowcell k / flowcell size. |
| Senders.Sack1TcpAgent.Duplicate | code/ns-2.34/tcp/tcp-sack1.cc:225-236 | A duplicate is counted; on the configured count recovery is entered, with its cut, exactly when it may start; short of it the next new packet goes out exactly when limited transmit allows it. |
| WfcsAgents.WfcsAgent.IsSpineFailed | code/ns-2.34/tcp/tcp.cc:2006-2025 | The loop returns the level of the first direct failure listed. |
| WfcsAgents.WfcsAgent.ChooseLink | code/ns-2.34/tcp/tcp.cc:1531-1574 | At the start of a flowcell the agent makes one step of the schedule, inside a flowcell none. |
| WfcsAgents.WfcsAgent.TakeWeakTurn | code/ns-2.34/tcp/tcp.cc:1553-1562 | The two counters after a weak turn. |
| WfcsAgents.WfcsAgent.Try | code/ns-2.34/tcp/tcp.cc:1545-1571 | One round of the search accepts the spine exactly when it is of the kind whose turn it is. |
| WfcsAgents.WfcsAgent.Search | code/ns-2.34/tcp/tcp.cc:1541-1574 | The bounded search ends on the nearest spine of the kind whose turn it is, or where it began when there is none, and moves the counters only in the first case of a weak turn. |
| WeightedPicks.ComputeWeights | code/ns-2.34/tcp/tcp.cc:1183-1210 | Every uplink has the weight of the first failure of this pair listed on it and the total is their sum. |
| WeightedPicks.WeightIs | code/ns-2.34/tcp/tcp.cc:1183-1205 | The value of a weight: nothing when the first failure of this pair listed on the uplink is full, the largest w with w * ratio <= 10 when it is partial, 10 without one. |
| WeightedPicks.ZeroWeightIff | code/ns-2.34/tcp/tcp.cc:1184-1205 | An uplink has weight zero if and only if that failure has a ratio above 10: some partial failures shut it out too. |
| WeightedPicks.DrawPossibleIff | code/ns-2.34/tcp/tcp.cc:1183-1210 | The draw has a weight to fall on if and only if some uplink is not shut out. |
| WeightedPicks.PartialIsShutOut | code/ns-2.34/tcp/tcp.cc:1200-1204 | An illustration: a partial failure of ratio 20 gives its uplink weight zero. |
| WeightedPicks.Pick | code/ns-2.34/tcp/tcp.cc:1693-1713 | With a draw below the total the fallback is never used, the uplink selected has positive weight and is the one whose interval holds the draw. |
| WeightedPicks.SelectsOne | code/ns-2.34/tcp/tcp.cc:1693-1713 | A draw selects one uplink only. |
| WeightedPicks.ExactShare | code/ns-2.34/tcp/tcp.cc:1693-1713 | The number of draws that select an uplink is exactly its weight. |
| MultiPaths.MultiPathForwarder.Spray | code/ns-2.34/classifier/classifier-mpath.cc:124-128 | A packet takes the next live slot in rotation; with no live slot the search gives up after one round, where it started. |
| MultiPaths.MultiPathForwarder.ForwardFlowcell | code/ns-2.34/classifier/classifier-mpath.cc:147-153 | The forward search halts at the slot asked for or the first live one after it. |
| MultiPaths.SearchStops | code/ns-2.34/classifier/classifier-mpath.cc:124-128 | Where the spraying search stops, with and without a live slot. |
| MultiPaths.MultiPathForwarder.SprayMany | code/ns-2.34/classifier/classifier-mpath.cc:124-128 | Successive packets take successive turns over the live slots; any L of them use each of the L live slots exactly once and no other. |
| Senders.Sack1TcpAgent.Output | code/ns-2.34/tcp/tcp.cc:1858-1978 | Sending a packet keeps: packets 0 to `maxseq` and no others have been sent. It carries ECN capability, the ECN request of the first packet and the response to congestion, announced once and on the first packet allowed to; new data starts the round-trip clock. |
| Senders.Sack1TcpAgent.CutWindow | code/ns-2.34/tcp/tcp.cc:2487-2590 | A cut sets window and threshold by the cut rules (what they come to: CutLaws.SlowdownCuts), announces the response and clears the growth counter. |
| CutLaws.SlowdownCuts | code/ns-2.34/tcp/tcp.cc:2487-2590 | The value of every cut from cwnd, wnd, ssthresh, alpha and the configuration: the half cut takes half of the smaller of cwnd and wnd (in whole packets without precision) or the configured part of it, the DCTCP cut takes alpha times the exact half, the others go to the restart window or to one packet; never below one packet, and the threshold in whole packets, at least two. |
| CutLaws.CutsToOne | code/ns-2.34/tcp/tcp.cc:2487-2590 | These conditions allow one result only. |
| CutLaws.HalfIs | code/ns-2.34/tcp/tcp.cc:2499-2534 | Half the window: exactly, or h whole packets with 2h <= window < 2h + 2. |
| CutLaws.DecreaseIs | code/ns-2.34/tcp/tcp.cc:2499-2534 | The decrease by the configured factor, exactly or in whole packets of a whole window. |
| CutLaws.ScaledIs | code/ns-2.34/tcp/tcp.cc:2546-2564 | Twice what a DCTCP cut takes is alpha times the window. |
| CutLaws.QuarterOff | code/ns-2.34/tcp/tcp.cc:2546-2564 | An illustration: at alpha 1/2 a window of 20 packets becomes 15. |
| SenderLaws.CutLaw | code/ns-2.34/tcp/tcp.cc:2487-2590 | The same for every cut the sender makes, from its own fields. |
| SenderLaws.EchoLaw | code/ns-2.34/tcp/tcp.cc:2679-2697 | An echo above the recovery point makes the DCTCP cut with the alpha of that acknowledgement, or the half cut; an acknowledgement without an echo leaves the window. |
| SenderLaws.TimeoutLaw | code/ns-2.34/tcp/tcp.cc:3135-3186 | A timeout with data outstanding cuts to the restart window, or to one packet when the last cut was for ECN. |
| SenderLaws.IdleLaw | code/ns-2.34/tcp/tcp.cc:3135-3186 | With nothing outstanding and no slow-start restart it leaves the window. |
| Senders.Sack1TcpAgent.Ecn | code/ns-2.34/tcp/tcp.cc:2679-2697 | At most one cut per window of data: after a cut, short of a timeout, the next waits until everything sent before it is acknowledged; the cut is the DCTCP or the half one, by configuration, and a second echo at a window of one packet backs the timer off. |
| Senders.Sack1TcpAgent.BackOffAtOne | code/ns-2.34/tcp/tcp.cc:2684-2688 | At a window of one packet the second echo backs the timer off; the flag says whether the window was down to one. |
| Senders.CutOnce | code/ns-2.34/tcp/tcp.cc:2681-2683 | One more ECN cut keeps the trace of cuts to one for each window of data. |
| Senders.Sack1TcpAgent.UpdateDctcpAlpha | code/ns-2.34/tcp/tcp-sack1.cc:561-667 | The estimator makes one step of the reference estimator, and alpha stays a fraction; what that estimator computes over a trace: DctcpLaws.WindowLaw. |
| Senders.Sack1TcpAgent.OpenCwnd | code/ns-2.34/tcp/tcp.cc:2365-2382 | Window growth by one in slow start, and by one per window otherwise. |
| SenderLaws.GrowthLaw | code/ns-2.34/tcp/tcp.cc:2719-2730 | When the window may grow: without an echo, unless growth is controlled and the application is the limit; with an echo not, outside the old mode. |
| SenderLaws.DupacksLaw | code/ns-2.34/tcp/tcp.cc:2291-2299 | The number of duplicates for fast retransmit is the larger of the configured number and the configured fraction of the window, in whole packets. |
| SenderLaws.TimingLaw | code/ns-2.34/tcp/tcp.cc:1961-1970 | New data is timed when nothing is; a packet being timed stays the one. |
| SenderLaws.SampleTaken | code/ns-2.34/tcp/tcp.cc:2648-2661 | The acknowledgement of the timed packet or a later one is the sample and ends the backoff unless it is held; any other changes nothing. |
| SenderLaws.HoldLaw | code/ns-2.34/tcp/tcp.cc:2648-2658 | The backoff is held exactly for an echo to an ECN-capable sender already down to one packet. |
| SenderLaws.BackOffLaw | code/ns-2.34/tcp/tcp.cc:810-815 | Backing off doubles the multiplier up to 64 or while the timeout may grow, and leaves it otherwise. |
| SenderLaws.PacketLaw | code/ns-2.34/tcp/tcp.cc:1858-1897 | The header: with ECN on data is ECN-capable and the first packet asks for ECN; the first packet of new data after a cut announces it, and no packet does without a cut. |
| Senders.Sack1TcpAgent.NewAck | code/ns-2.34/tcp/tcp.cc:2610-2667 | The acknowledgement variables move together, sending resumes above them, and a timed packet gives a round-trip sample and ends the backoff, unless the window is one packet and still echoed. |
| Senders.Sack1TcpAgent.GrowAndNegotiate | code/ns-2.34/tcp/tcp.cc:2711-2741 | The window opens by at most one packet, and not with an echo (but for a later one in the old mode) or while the application is the limit; what the acknowledgement says about ECN at the other end. |
| Senders.Sack1TcpAgent.Choose | code/ns-2.34/tcp/tcp-sack1.cc:689-716 | What the sending loop sends next: the packet named for retransmission or new data, inside the window, and nothing exactly when neither may go. |
| Senders.Sack1TcpAgent.SendMuch | code/ns-2.34/tcp/tcp-sack1.cc:676-744 | With nothing to retransmit exactly the packets from `t_seqno_` on go out in order, and without a burst limit the loop ends only when nothing more may go; the first packet named for retransmission goes out first when it may; whatever is sent is new or named, the pipe counts it, and nothing goes beyond the advertised window. |
| Senders.Sack1TcpAgent.SendLoop | code/ns-2.34/tcp/tcp-sack1.cc:689-743 | The loop itself, with the same claims for every number of rounds. |
| Senders.Sack1TcpAgent.SendNext | code/ns-2.34/tcp/tcp-sack1.cc:696-722 | One round sends the packet named for retransmission or the next new one, exactly when the window allows that one. |
| SenderLaws.StuckLaw | code/ns-2.34/tcp/tcp-sack1.cc:689-716 | When the loop stops with data left: outside fast recovery the window is full, in it the pipe or the advertised window is. |
| SenderLaws.RetransmitLaw | code/ns-2.34/tcp/tcp-sack1.cc:689-716 | When a packet named for retransmission goes out: with a recovery point, inside the advertised window, and with room in the pipe or the window. |
| Senders.Sack1TcpAgent.SendOne | code/ns-2.34/tcp/tcp.cc:2837-2848 | Limited transmit sends the next new packet exactly when it may, and otherwise nothing. |
| Senders.Sack1TcpAgent.StartRecovery | code/ns-2.34/tcp/tcp-sack1.cc:343-428 | Entering fast recovery retransmits the first packet not acknowledged and keeps the sequence invariant. |
| Senders.Sack1TcpAgent.EnterRecovery | code/ns-2.34/tcp/tcp-sack1.cc:343-428 | Exactly when the last duplicate enters recovery, and what recovery point, window, pipe and retransmission follow in each case. |
| Senders.Sack1TcpAgent.RecoverAgain | code/ns-2.34/tcp/tcp-sack1.cc:354-391 | After an ECN cut: with DCTCP one more half cut, the old recovery point, one retransmission. |
| Senders.Sack1TcpAgent.RecoverAnew | code/ns-2.34/tcp/tcp-sack1.cc:402-427 | A half cut, a new recovery point, one retransmission. |
| SenderLaws.RecoveryLaw | code/ns-2.34/tcp/tcp-sack1.cc:343-428 | On the last duplicate: recovery starts, with a half cut, whenever all up to the recovery point is acknowledged; with the fix for repeated recoveries not before, short of an ECN cut and of the first packet. |
| SenderLaws.PipeLaw | code/ns-2.34/tcp/tcp-sack1.cc:402-427 | What the pipe counts on entering recovery: what is outstanding less what the duplicates stand for. |
| Senders.Sack1TcpAgent.ReadEcho | code/ns-2.34/tcp/tcp-sack1.cc:141-149 | The estimator takes one step; the window is cut exactly for an echo above the recovery point or after a timeout, with the alpha of that step, and otherwise stays. |
| Senders.Sack1TcpAgent.RecvNormal | code/ns-2.34/tcp/tcp-sack1.cc:184-254 | Outside recovery: the acknowledgement advances, is old, or is a duplicate, with the window, the duplicate count and recovery that follow in each case. |
| Senders.Sack1TcpAgent.RecvInRecovery | code/ns-2.34/tcp/tcp-sack1.cc:258-311 | Inside recovery: it ends exactly when the recovery point is acknowledged; the highest acknowledgement advances, the pipe shrinks by one or two, and a partial acknowledgement ends the backoff. |
| Senders.Sack1TcpAgent.Respond | code/ns-2.34/tcp/tcp-sack1.cc:184-311 | The sequence invariant through both branches; the window grows only on a new acknowledgement outside recovery; recovery ends exactly at the recovery point; sending then goes on until nothing more may go, starting with the packet named for retransmission. |
| Senders.Sack1TcpAgent.Recv | code/ns-2.34/tcp/tcp-sack1.cc:107-311 | Every acknowledgement of data sent keeps the sequence invariant, never lowers the highest acknowledgement, takes the estimator one step, records exactly the ECN cuts it makes, ends recovery when it answers for everything sent, and sends nothing more if there is no data. The window that results in recovery, for an old and for a new acknowledgement. |
| Senders.Sack1TcpAgent.ResetForTimeout | code/ns-2.34/tcp/tcp-sack1.cc:465-519 | A timeout leaves recovery, brings both acknowledgement variables together and goes back to the first packet not acknowledged. |
| Senders.Sack1TcpAgent.TimeoutCut | code/ns-2.34/tcp/tcp.cc:3135-3186 | Which cut a timeout makes in every case: none when nothing is outstanding and slow-start restart is off, to one packet after an ECN cut or for the restart fix, otherwise a restart. |
| Senders.Sack1TcpAgent.BeforeResending | code/ns-2.34/tcp/tcp.cc:3122-3194 | All a timeout changes before it sends. |
| Senders.Sack1TcpAgent.Timeout | code/ns-2.34/tcp/tcp-sack1.cc:465-519 | A timeout leaves recovery and sets a new recovery point, cuts the window, backs the timer off unless nothing is outstanding, and resends: with data and nothing named at least the packet right above the highest acknowledgement, and without a burst limit all that may go. |
| Senders.Sack1TcpAgent.AdvanceBy | code/ns-2.34/tcp/tcp.cc:1994-2000 | Data from the application: `curseq_` grows by exactly that much (and the SYN packet on the first send). With nothing to retransmit the packets sent are those from the old `t_seqno_` to the new one in order, and outside recovery without a burst limit the new one is where the window or the data ends. |
| Connections.Connection.ValidIsOrdered | code/ns-2.34/tcp/tcp-sack1.cc:184-311 | In every state the invariant allows: last <= highest acknowledgement <= what the receiver has in order <= highest sent; outside recovery the first two agree, inside it the highest is at most the recovery point; every packet acknowledged was received. |
| Connections.Connection.DeliverData | code/ns-2.34/tcp/tcp-sink.cc:429-480 | Delivering any packet ever sent, any number of times and in any order, keeps that invariant. |
| Connections.Connection.DeliverAck | code/ns-2.34/tcp/tcp-sack1.cc:107-311 | Delivering any acknowledgement ever sent keeps it and never lowers the highest acknowledgement. |
| Connections.Connection.NewData | code/ns-2.34/tcp/tcp.cc:1994-2000 | Data from the application keeps that invariant, is added to what there is to send, and when all sent is acknowledged something new is sent. |
| Connections.Connection.Step | code/ns-2.34/tcp/tcp-sack1.cc:107-311 | Every step, timers and the application included, keeps it and has its effect: a packet delivered is received, an acknowledgement raises the highest one, data produced is there to send; neither end forgets what was acknowledged. |
| Connections.Connection.Run | code/ns-2.34/tcp/tcp-sack1.cc:107-311 | End-to-end safety for every run over a network that loses, duplicates and reorders data and acknowledgements; and in every run the window has been cut for ECN at most once for each window of data. |
| Connections.Connection.LastAnswersAll | code/ns-2.34/tcp/tcp-sink.cc:429-491 | Once everything sent has arrived and nothing is held back, the last acknowledgement answers for all of it. |
| Connections.Connection.DeliverLast | code/ns-2.34/tcp/tcp-sack1.cc:184-311 | The acknowledgement that answers for everything sent ends fast recovery, and with no more data nothing more is sent. |
| Connections.Connection.Drain | code/ns-2.34/tcp/tcp-sack1.cc:107-311 | Recovery from every reachable state: once the packets sent arrive, the delay timer fires and the last acknowledgement gets back, everything sent until then is acknowledged, fast recovery is over, and if data is left more of it has been sent. |
| Connections.Connection.ExactlyReceived | code/ns-2.34/tcp/tcp-sack1.cc:107-311 | When everything sent is acknowledged, the receiver holds exactly packets 0 to `maxseq`. |
| Connections.Connection.DrainAll | code/ns-2.34/tcp/tcp-sack1.cc:107-311 | As many such rounds as there is data for send all of it. |
| Connections.Connection.Complete | code/ns-2.34/tcp/tcp.cc:1994-2000 | Progress from every reachable state: if the application produces n packets, enough rounds in which what was sent arrives and the last acknowledgement gets back leave nothing unsent or unacknowledged, and the receiver with exactly the packets sent. |
| Connections.Connection.Transfer | code/ns-2.34/tcp/tcp.cc:1994-2000 | A new connection given n packets ends with the receiver holding exactly 0 to n - 1, and one more for the SYN packet when there is one. |
| DctcpControl.AlphaStaysAFraction | code/ns-2.34/tcp/tcp-sack1.cc:561-667 | Over every sequence of acknowledgements 0 <= marked <= total and alpha stays in [0, 1] for a gain in [0, 1]. |
| DctcpControl.UniformStep | code/ns-2.34/tcp/tcp-sack1.cc:561-667 | One uniformly marked acknowledgement shrinks the gap by 1 - g when it ends a window and leaves it alone otherwise. |
| DctcpControl.AlphaConverges | code/ns-2.34/tcp/tcp-sack1.cc:561-667 | After k fully marked (or unmarked) windows the distance of alpha from 1 (or 0) is (1 - g)^k times what it was. |
| DctcpLaws.WindowLaw | code/ns-2.34/tcp/tcp-sack1.cc:561-667 | Over every trace of acknowledgements: a window ends with the first acknowledgement above the highest packet sent at the end of the one before, and no other; there alpha moves the part g of the way to (packets acknowledged with an echo) / (packets acknowledged) since then, and nowhere else. An acknowledgement that does not advance counts as one packet. |
| DctcpLaws.FirstWindow | code/ns-2.34/tcp/tcp-sack1.cc:561-667 | The same for the first window, from any state of the estimator. |
| DctcpLaws.StepLaw | code/ns-2.34/tcp/tcp-sack1.cc:606-656 | One acknowledgement after any number without a window end: whether it ends the window, and where alpha and the counters go. |
| DctcpLaws.Counts | code/ns-2.34/tcp/tcp-sack1.cc:606-656 | Between window ends the two counters add up what is acknowledged and what of it is echoed, and alpha stays. |
| DctcpLaws.HalfMarked | code/ns-2.34/tcp/tcp-sack1.cc:606-656 | An illustration: ten packets, five of them echoed, move alpha from 0 to 1/32 for g = 1/16. |
| DctcpControl.DctcpCutBounds | code/ns-2.34/tcp/tcp.cc:2487-2590 | A DCTCP cut leaves the window between half of itself and itself with a floor of one packet, the threshold at least two; the extremes are reached at alpha 1 and 0. |
| DctcpControl.HalfAndDecreaseBounds | code/ns-2.34/tcp/tcp.cc:2487-2520 | The half and the decreased window lie between zero and the window, rounded or not. |
| DctcpControl.CutsNeverGrow | code/ns-2.34/tcp/tcp.cc:2487-2590 | No cut opens the window beyond what it was or the restart window. |
| RttEstimation.UpdateStaysInside | code/ns-2.34/tcp/tcp.cc:764-808 | One measurement in [a, b] keeps the smoothed time in [a, b] and the deviation within the spread, wraps of the short included. |
| RttEstimation.Envelope | code/ns-2.34/tcp/tcp.cc:764-828 | For any mix of measurements in [a, b] and backed-off timeouts the smoothed time stays in [a, b] whenever there is one, the deviation is at most max(4(b - a), 2b), and every timeout computed lies between a + 1 and b plus that spread, wherever wraps allow it. |
| RttEstimation.EnvelopeIff | code/ns-2.34/tcp/tcp.cc:764-828 | Exactly when the envelope holds, for every 1 <= a <= b and wherever the deviation starts: every run of measurements in [a, b] and timeouts keeps it if and only if b - a fits a short and b/2 modulo 65536 is at most 32768 and, once b/2 exceeds a wrap, at least b - a. |
| RttEstimation.TameBelow | code/ns-2.34/tcp/tcp.cc:785-794 | For b up to 65537 that condition is that b - a fits a short. |
| RttEstimation.BreaksOut | code/ns-2.34/tcp/tcp.cc:785-794 | Whenever it does not hold two measurements leave the envelope. |
| RttEstimation.WideDifferencesWrap | code/ns-2.34/tcp/tcp.cc:785-794 | An illustration: one measurement 40000 ticks above the average drives it to its floor. |
| RttEstimation.RttEstimator.constructor | code/ns-2.34/tcp/tcp.cc:719-726 | The initial average, deviation, timeout and multiplier. |
| RttEstimation.RttEstimator.RttUpdate | code/ns-2.34/tcp/tcp.cc:764-808 | The fields after a measurement are one step of the reference estimator, and the timer is the timeout in seconds; what that step does: RttLaws.SampleLaw. |
| RttEstimation.RttEstimator.RttBackoff | code/ns-2.34/tcp/tcp.cc:810-828 | The multiplier doubles unless it is both at its maximum and the timeout is; far back the average moves into the deviation. Over several timeouts: RttLaws.BackoffIs. |
| RttLaws.SampleLaw | code/ns-2.34/tcp/tcp.cc:764-808 | Where no difference wraps, up to rounding: the average moves an eighth of the way to the measurement, the deviation a quarter of the way to the distance between the two, in both directions, and the timeout is the average and four deviations. |
| RttLaws.SampleDirection | code/ns-2.34/tcp/tcp.cc:764-808 | The average follows the measurement, and the deviation grows exactly when the measurement is further from the average than the deviation and shrinks exactly when it is nearer. |
| RttLaws.FirstSample | code/ns-2.34/tcp/tcp.cc:795-806 | The first sample is the average, half of it the deviation, and three times it the timeout. |
| RttLaws.RiseRaisesTimeout | code/ns-2.34/tcp/tcp.cc:785-806 | An illustration: with an average of 10 and a deviation of 5 a measurement of 30 ticks gives a timeout of 47. |
| RttLaws.BackoffIs | code/ns-2.34/tcp/tcp.cc:812-815 | After any sequence of timeouts from 1 the multiplier is two to the number of those that found it under 64 or the timeout under its maximum. |
| RttLaws.AllDouble | code/ns-2.34/tcp/tcp.cc:812-815 | k timeouts give 2^k as long as that holds. |
| RttLaws.StopsAt64 | code/ns-2.34/tcp/tcp.cc:812-815 | At the maximum throughout the multiplier stops at 64. |
| RttLaws.ClobberForgets | code/ns-2.34/tcp/tcp.cc:819-827 | Beyond a multiplier of 8 the average moves into the deviation and the next sample starts afresh. |
| RttLaws.NearbyKeeps | code/ns-2.34/tcp/tcp.cc:819-827 | Up to 8 the estimate stays. |
| RedArithmetic.WeightOneIsInstantaneous | code/ns-2.34/queue/red.cc:386-406 | With weight one the average is the queue length, idle or not. |
| RedArithmetic.AverageMoves | code/ns-2.34/queue/red.cc:386-406 | One packet moves the average the part of its weight towards the queue length. |
| RedArithmetic.IdleIsEmpty | code/ns-2.34/queue/red.cc:386-406 | Idle packet times count as arrivals at an empty queue. |
| RedArithmetic.SurvivalTelescopes | code/ns-2.34/queue/red.cc:478-506 | The product of the chances of no drop telescopes to a quotient, in both forms of spreading. |
| RedArithmetic.GapIsUniform | code/ns-2.34/queue/red.cc:478-506 | Every position is equally likely for the next drop; with `wait`, from the first count with count * p >= 1 on. |
| RedQueues.TracedStep | code/ns-2.34/queue/red.cc:674-769 | The count and the flag of the queue are determined by its trace. |
| RedQueues.CountIsGap | code/ns-2.34/queue/red.cc:674-710 | While arrivals are in range and none is dropped or marked, the count is the distance from the last drop or mark. |
| RedQueues.GapLaw | code/ns-2.34/queue/red.cc:516-573 | With a constant average the arrival i - j after a drop or mark is dropped early or marked exactly when its draw is at most the spread probability at that count: the law whose gaps are uniform. |
| RedArithmetic.NoDropWhileWaiting | code/ns-2.34/queue/red.cc:478-506 | With `wait` nothing is dropped before that count. |
| RedArithmetic.DropIsCertain | code/ns-2.34/queue/red.cc:478-506 | A drop is certain once the count is large enough. |
| RedArithmetic.LastPosition | code/ns-2.34/queue/red.cc:478-506 | Once the next count would reach the limit the drop falls on this one. |
| RedArithmetic.RampBelow | code/ns-2.34/queue/red.cc:436-461 | Below the upper threshold the probability is linear and below its maximum. |
| RedArithmetic.RampGentle | code/ns-2.34/queue/red.cc:436-461 | In gentle mode it climbs from the maximum to one at twice the threshold. |
| RedArithmetic.RampAbove | code/ns-2.34/queue/red.cc:436-461 | Without gentle mode it is one from the upper threshold on. |
| RedArithmetic.RampMonotone | code/ns-2.34/queue/red.cc:436-461 | The probability never falls as the average grows and is at most one. |
| RedQueues.RedQueue.Estimator | code/ns-2.34/queue/red.cc:386-406 | The decay loop computes the power form of the average. |
| RedQueues.RedQueue.DropEarly | code/ns-2.34/queue/red.cc:516-573 | Drop or mark exactly when the draw is at most the probability; mark exactly when marking is allowed and the packet is ECN-capable. |
| RedQueues.DropLogicBounds | code/ns-2.34/queue/red.cc:693-715 | With the DCTCP settings the outcome does not depend on the draw: mark or drop exactly above the threshold and not first. |
| RedQueues.DropLogicEnds | code/ns-2.34/queue/red.cc:693-715 | Below the lower threshold nothing is dropped early or marked; without the marking mode everything is dropped from the upper threshold on, or twice that in gentle mode. |
| RedQueues.MarkerStep | code/ns-2.34/queue/red.cc:629-769 | One arrival keeps the marker property of the whole trace. |
| RedQueues.RedQueue.Decide | code/ns-2.34/queue/red.cc:693-715 | The drop logic as one function of what the arrival meets. |
| RedQueues.RedQueue.Admit | code/ns-2.34/queue/red.cc:716-768 | A packet is lost exactly on an early drop or a full queue; otherwise it is appended, with its mark. |
| RedQueues.RedQueue.Enque | code/ns-2.34/queue/red.cc:629-769 | For every trace of arrivals and departures: an ECN-capable arrival is marked exactly when it sees at least the threshold (and more than one packet) and the arrival before it did too; a packet is dropped exactly when it sees a full queue or could not be marked; the queue never exceeds its limit. |
| RedQueues.RedQueue.Deque | code/ns-2.34/queue/red.cc:411-431 | The head leaves, or the queue is found idle. |
| EmpiricalVariables.EmpiricalRandomVariable.LoadCDF | code/ns-2.34/tools/ranvar.cc:496-524 | The table holds exactly the entries of the file, in order, however often the array had to grow. |
| EmpiricalVariables.EmpiricalRandomVariable.Grow | code/ns-2.34/tools/ranvar.cc:510-517 | Doubling the array keeps its entries. |
| EmpiricalVariables.EmpiricalRandomVariable.Lookup | code/ns-2.34/tools/ranvar.cc:546-560 | Binary search returns the least index whose cdf reaches the draw, or the last. |
| EmpiricalVariables.EmpiricalRandomVariable.Value | code/ns-2.34/tools/ranvar.cc:526-536 | The sample for every draw; interpolation never divides by zero, repeated cdf entries included. |
| EmpiricalVariables.InterpolateBetween | code/ns-2.34/tools/ranvar.cc:538-544 | Interpolation stays between its end points and follows the draw. |
| EmpiricalVariables.InterpolateIsLinear | code/ns-2.34/tools/ranvar.cc:538-544 | Interpolation is linear and passes through both end points. |
| EmpiricalVariables.SampleBounds | code/ns-2.34/tools/ranvar.cc:526-544 | A sample lies between the values of two neighbouring entries. |
| EmpiricalVariables.SampleIncreasingIff | code/ns-2.34/tools/ranvar.cc:526-544 | The sampled value never falls as the draw grows if and only if it is not rounded up or every value reached by interpolation is whole. |
| EmpiricalVariables.NotWholeOvershoots | code/ns-2.34/tools/ranvar.cc:526-536 | For any entry whose value is not whole, a draw below it whose rounded sample is larger. |

## Left out

Behaviour of the modelled files that the model does not have:

- D-SACK blocks: the mode is off. It can push a block that is already on the stack.
- Timestamps, `update_ts`, and the check for packets of an earlier incarnation.
- Resetting a whole sink; `DelAckSink::reset` and `Sacker::reset`. Only `Acker::reset` and the stack's reset are modelled.
- Size growth of an acknowledgement by its SACK option, flow identifiers, the Quick-Start fields and the failure-detected flag it copies.
- Empty or negative packet sizes at a receiver: a size of zero would read as "not received".
- Quick-Start, F-RTO, `partial_ack_`, `QOption_`, idle restart, the send-delay timer, `delay_growth_`, ELN and the high-speed and binomial windows. Only window option 0 grows the window, and the timestamp option is off. `maxcwnd_` does not bound the window.
- The scoreboard: an oracle that says whether an acknowledgement carries news and names packets already sent; what it should retransmit is not claimed.
- `t_rtxcur_` in the sender: the sender keeps the estimate it is computed from; `RttEstimator` has the field itself.
- Timers as clocks: a timer is an event that may happen whenever it is pending. The retransmission timer may fire at any time.
- Connection set-up, closing and `finish`; one connection to an agent, since the spraying counters are only cleared when an agent is created.
- The conversion of a round-trip time in seconds to ticks: the estimator starts from ticks.
- Overflow of C integers other than the 16-bit difference, and rounding of doubles.
- `selectiveSpraying` and failure case 2 of the forwarder, single-failure WFCS, WFCS without a direct failure or without a healthy spine, and detection delays: the failures are known throughout a flow. In failure case 2 and in selective spraying the source does not check every slot.
- Hash-based routing and FlowBender.
- Failures whose spine number is not an uplink, and failure ratios below one: the source would write outside its arrays or divide by zero.
- RED in byte mode, adaptive and cautious RED, dropping from the front or at random, early-drop targets, and the computation of idle packet times from the clock: they arrive as a number.
- A table with one entry and a draw above it, for which the lookup returns an index outside the table; a draw outside the range of the table's cdf falls on the last entry.
- Reading the table file, parsing the failure list, Tcl bindings, tracing and packet allocation.
- The inheritance of the sink and sender classes: composition or one flat class instead.

Contracts that say less than the code does:

- Senders.Sack1TcpAgent.SendMuch: with packets to retransmit it promises that every packet sent is one of those or new, and inside the advertised window, but not which of them go out: that is the scoreboard's choice.
- Sinks.DelAckSink.Ack: the timestamps of the acknowledgement, its link number and its failure-detected flag are not modelled.
- Senders.Sack1TcpAgent.TimeoutCut: the smaller initial window after a lost first packet (tcp.cc:3147-3160) is not modelled; nothing in the model reads it.
- Senders.Sack1TcpAgent.BeforeResending: nor is that change here, or `pipe_prev_`, which only the Eifel response reads.
- RttEstimation.RttEstimator.RttUpdate: `rttvar_exp_` is fixed at its default of 2, and the measurement is in ticks already.
- Senders.Sack1TcpAgent.RecvNormal: whether a duplicate tells the scoreboard anything new is a parameter.
