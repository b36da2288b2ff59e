/** Which runs a receiver with a bounded history still reports: exactly when a run
    is forgotten, over every sequence of acknowledged packets. */
module SackReports {
  import opened ReceiveLog
  import opened SackHistory

  /** Packet `j` of the trace is the last one that triggered an acknowledgement in
      its run, and the run is above the cumulative acknowledgement. */
  ghost predicate LastOfRun(trace: seq<int>, j: nat)
    requires j < |trace|
  {
    var keys := Received(trace);
    trace[j] in keys && Cumulative(keys) < trace[j] && Run(keys, trace[j]) !in Recency(trace[j + 1..], keys)
  }

  /** How many other runs were waiting and had been acknowledged more recently than
      packet `j`, once `k` packets had arrived. */
  ghost function Crowd(trace: seq<int>, j: nat, k: nat): nat
    requires j < k <= |trace|
  {
    |Recency(trace[j + 1..k], Received(trace[..k]))|
  }

  /** The run of packet `j` has always fitted beside the more recent ones. */
  ghost predicate AlwaysFits(trace: seq<int>, j: nat, size: nat)
    requires j < |trace|
  {
    forall k | j < k <= |trace| :: Crowd(trace, j, k) < size
  }

  lemma CoversSame(keys: set<int>, s: int, t: int)
    requires s in keys && t in keys && Covers(Run(keys, s), Run(keys, t))
    ensures Run(keys, s) == Run(keys, t)
  {
    RunIsUnique(keys, t, Run(keys, s));
  }

  /** A run stands right behind the runs acknowledged after it. */
  lemma {:induction false} RecencySplit(a: seq<int>, t: int, b: seq<int>, keys: set<int>)
    requires t in keys && Cumulative(keys) < t && Run(keys, t) !in Recency(b, keys)
    ensures Recency(b, keys) + [Run(keys, t)] <= Recency(a + [t] + b, keys)
  {
    hide FirstGap, LeftEdge, Run;
    if b == [] {
      assert a + [t] + b == a + [t];
      RecencyAppend(a, t, keys);
    } else {
      var init, s := b[..|b| - 1], b[|b| - 1];
      assert a + [t] + b == (a + [t] + init) + [s] && b == init + [s];
      RecencyAppend(a + [t] + init, s, keys);
      RecencyAppend(init, s, keys);
      if s in keys && Cumulative(keys) < s {
        var rt, rs := Run(keys, t), Run(keys, s);
        UncoveredMembers(Recency(init, keys), rs);
        if Covers(rs, rt) {
          CoversSame(keys, s, t);
        }
        RecencySplit(a, t, init, keys);
        UncoveredPrefix(Recency(init, keys) + [rt], Recency(a + [t] + init, keys), rs);
        UncoveredAppend(Recency(init, keys), [rt], rs);
        UncoveredNone([rt], rs);
      } else {
        RecencySplit(a, t, init, keys);
      }
    }
  }

  lemma ReceivedAppend(trace: seq<int>, s: int)
    ensures Received(trace + [s]) == if s < 0 then Received(trace) else Received(trace) + {s}
  {}

  /** Nothing in the run of packet `j` arrives after the last packet of that run. */
  lemma NotAgain(trace: seq<int>, j: nat, u: int)
    requires j < |trace| && LastOfRun(trace, j)
    requires u in trace[j + 1..] && u in Received(trace)
    ensures var r := Run(Received(trace), trace[j]); !(r.left <= u < r.right)
  {
    var keys := Received(trace);
    var r := Run(keys, trace[j]);
    if r.left <= u < r.right {
      RunIsUnique(keys, u, r);
      assert !(r.left <= Cumulative(keys));
      RecencyHas(trace[j + 1..], keys, u);
    }
  }

  /** A packet outside the run of packet `j` leaves that run as it was. */
  lemma RunStays(init: seq<int>, s: int, j: nat)
    requires j < |init| && LastOfRun(init + [s], j)
    ensures init[j] in Received(init) && Cumulative(Received(init)) < init[j]
    ensures Run(Received(init), init[j]) == Run(Received(init + [s]), init[j])
  {
    var trace, t := init + [s], init[j];
    ReceivedAppend(init, s);
    assert s in trace[j + 1..];
    hide LeftEdge, Recency;
    if s >= 0 {
      CumulativeBefore(Received(init), s);
      RunGrows(Received(init), t, s);
      NotAgain(trace, j, s);
    }
  }

  lemma LastStays(init: seq<int>, s: int, j: nat)
    requires j < |init| && LastOfRun(init + [s], j)
    ensures LastOfRun(init, j)
  {
    hide Recency;
    var keys, rest := Received(init), init[j + 1..];
    RunStays(init, s, j);
    var r := Run(keys, init[j]);
    if r in Recency(rest, keys) {
      RecencyOnly(rest, keys, r);
      var u :| u in rest && u in keys && r == Run(keys, u);
      assert (init + [s])[j + 1..] == rest + [s];
      ReceivedAppend(init, s);
      assert r.left <= Run(keys, u).left <= u < r.right;
      NotAgain(init + [s], j, u);
    }
  }

  lemma DistinctIndex(bs: seq<Block>, i: nat, n: nat)
    requires Distinct(bs) && i < |bs| && n <= |bs|
    ensures bs[i] in bs[..n] <==> i < n
  {
    if bs[i] in bs[..n] {
      var k :| 0 <= k < n && bs[..n][k] == bs[i];
      assert !(k < i) && !(i < k);
    }
  }

  /** Where the run of packet `j` stands in the full list. */
  lemma Position(trace: seq<int>, j: nat, prefix: seq<Block>)
    requires j < |trace| && LastOfRun(trace, j) && prefix <= Recency(trace, Received(trace))
    ensures Run(Received(trace), trace[j]) in prefix <==> Crowd(trace, j, |trace|) < |prefix|
  {
    hide Run, Recency;
    var t, keys := trace[j], Received(trace);
    var full := Recency(trace, keys);
    assert trace[..|trace|] == trace && trace[j + 1..|trace|] == trace[j + 1..];
    assert trace == trace[..j] + [t] + trace[j + 1..];
    RecencySplit(trace[..j], t, trace[j + 1..], keys);
    RecencyDistinct(trace, keys);
    DistinctIndex(full, Crowd(trace, j, |trace|), |prefix|);
    assert full[..|prefix|] == prefix;
  }

  /** The run of packet `j` is in the stack exactly when it is near enough to the
      front of the full list. */
  lemma ReportedByPosition(trace: seq<int>, j: nat, size: nat)
    requires j < |trace| && LastOfRun(trace, j)
    ensures var r := Run(Received(trace), trace[j]);
            r in Replay(trace, size) <==> Crowd(trace, j, |trace|) < |Replay(trace, size)|
  {
    ReplayIsPrefix(trace, size);
    Position(trace, j, Replay(trace, size));
  }

  /** A run already in the stack is found again behind the one just acknowledged,
      as far down as there are more recent runs. */
  lemma WithRecent(init: seq<int>, s: int, j: nat, stack: seq<Block>)
    requires j < |init| && LastOfRun(init + [s], j) && stack <= Recency(init, Received(init))
    requires 0 <= s && Cumulative(Received(init + [s])) <= s
    ensures var trace, keys' := init + [s], Received(init + [s]);
            var r, w := Run(keys', init[j]), [Run(keys', s)] + Uncovered(stack, Run(keys', s));
            && (r in w <==> r in stack)
            && w <= Recency(trace, keys')
            && (r in w <==> Crowd(trace, j, |trace|) < |w|)
  {
    hide FirstGap, LeftEdge, Run, Uncovered;
    var trace, t := init + [s], init[j];
    var keys' := Received(trace);
    ReceivedAppend(init, s);
    var r, c := Run(keys', t), Run(keys', s);
    var w := [c] + Uncovered(stack, c);
    StackStep(stack, init, Received(init), s, |stack| + 1);
    UncoveredMembers(stack, c);
    if r == c || Covers(c, r) {
      CoversSame(keys', s, t);
      NotAgain(trace, j, s);
    }
    Position(trace, j, w);
  }

  /** One acknowledgement more: the run stays reported while it fits. */
  lemma ReportedStep(init: seq<int>, s: int, j: nat, size: nat)
    requires j < |init| && LastOfRun(init + [s], j)
    ensures var trace, t := init + [s], init[j];
            Run(Received(trace), t) in Replay(trace, size) <==>
            Run(Received(init), t) in Replay(init, size) && Crowd(trace, j, |trace|) < size
  {
    hide FirstGap, LeftEdge, Run;
    var trace, t := init + [s], init[j];
    var keys, keys', stack := Received(init), Received(trace), Replay(init, size);
    RunStays(init, s, j);
    ReceivedAppend(init, s);
    ReplayIsPrefix(init, size);
    ReplayIsPrefix(trace, size);
    ReportedByPosition(trace, j, size);
    var r := Run(keys', t);
    assert trace[..|trace| - 1] == init;
    assert Replay(trace, size) == StackAfter(stack, keys', s, size);
    if s >= 0 && size > 0 {
      if s < Cumulative(keys') {
        UncoveredMembers(stack, Block(0, Cumulative(keys')));
      } else {
        WithRecent(init, s, j, stack);
      }
    }
  }

  /** Exactly when a run is reported, over every sequence of acknowledged packets:
      when, ever since its last packet was acknowledged, fewer other runs than the
      block limit had been acknowledged more recently. */
  lemma {:induction false} ReportedIff(trace: seq<int>, j: nat, size: nat)
    requires j < |trace| && LastOfRun(trace, j)
    ensures Run(Received(trace), trace[j]) in Replay(trace, size) <==> AlwaysFits(trace, j, size)
    decreases |trace|
  {
    hide FirstGap, LeftEdge, Run, Recency, Received;
    var n := |trace| - 1;
    var init, s := trace[..n], trace[n];
    assert trace == init + [s];
    if j < n {
      LastStays(init, s, j);
      ReportedIff(init, j, size);
      ReportedStep(init, s, j, size);
      forall k | j < k <= n
        ensures Crowd(init, j, k) == Crowd(trace, j, k)
      {
        assert init[..k] == trace[..k] && init[j + 1..k] == trace[j + 1..k];
      }
    } else {
      NewRun(init, s, size);
    }
  }

  lemma NewRun(init: seq<int>, s: int, size: nat)
    requires LastOfRun(init + [s], |init|)
    ensures Run(Received(init + [s]), s) in Replay(init + [s], size) <==> 0 < size
    ensures Crowd(init + [s], |init|, |init| + 1) == 0
  {
    var trace := init + [s];
    assert trace[..|init|] == init && trace[|init| + 1..|init| + 1] == [];
    assert trace[..|trace| - 1] == init;
    var stack := Replay(init, size);
    assert Replay(trace, size) == StackAfter(stack, Received(trace), s, size);
    ReplayIsPrefix(trace, size);
    ReplayIsPrefix(init, size);
    if size > 0 {
      assert Replay(trace, size)[0] == Run(Received(trace), s);
    }
  }

  // Completeness

  lemma {:induction false} LastExists(trace: seq<int>, keys: set<int>, b: Block) returns (j: nat)
    requires b in Recency(trace, keys)
    ensures j < |trace| && trace[j] in keys && Cumulative(keys) < trace[j]
    ensures Run(keys, trace[j]) == b && b !in Recency(trace[j + 1..], keys)
  {
    hide FirstGap, LeftEdge, Run, Uncovered, Covers, Cumulative;
    RecencyOnly(trace, keys, b);
    var n := |trace| - 1;
    var init, s := trace[..n], trace[n];
    assert trace == init + [s];
    if s in keys && Cumulative(keys) < s && Run(keys, s) == b {
      j := n;
      assert Recency(trace[j + 1..], keys) == [];
    } else {
      RecencyAppend(init, s, keys);
      if s in keys && Cumulative(keys) < s {
        UncoveredMembers(Recency(init, keys), Run(keys, s));
      }
      j := LastExists(init, keys, b);
      assert trace[j + 1..] == init[j + 1..] + [s];
      RecencyAppend(init[j + 1..], s, keys);
      if s in keys && Cumulative(keys) < s {
        UncoveredMembers(Recency(init[j + 1..], keys), Run(keys, s));
      }
    }
  }

  /** Exactly when every run above the acknowledgement is reported: when each has
      always fitted. */
  lemma EveryRunReportedIff(trace: seq<int>, size: nat)
    ensures var keys := Received(trace);
            (forall b | IsRun(keys, b) && Cumulative(keys) < b.left :: b in Replay(trace, size)) <==>
            (forall j: nat | j < |trace| && LastOfRun(trace, j) :: AlwaysFits(trace, j, size))
  {
    hide FirstGap, LeftEdge, Recency, AlwaysFits;
    var keys := Received(trace);
    if forall b | IsRun(keys, b) && Cumulative(keys) < b.left :: b in Replay(trace, size) {
      forall j: nat | j < |trace| && LastOfRun(trace, j)
        ensures AlwaysFits(trace, j, size)
      {
        assert IsRun(keys, Run(keys, trace[j])) && !(Run(keys, trace[j]).left <= Cumulative(keys));
        ReportedIff(trace, j, size);
      }
    }
    if forall j: nat | j < |trace| && LastOfRun(trace, j) :: AlwaysFits(trace, j, size) {
      forall b | IsRun(keys, b) && Cumulative(keys) < b.left
        ensures b in Replay(trace, size)
      {
        RecencyListsAllRuns(trace, keys, b);
        var j := LastExists(trace, keys, b);
        ReportedIff(trace, j, size);
      }
    }
  }
}
