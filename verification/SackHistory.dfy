/** SACK reporting as section 4 of RFC 2018 words it: the first block is the run
    that holds the packet just received, and the rest repeat the most recently
    reported runs that are not already included. */
module SackHistory {
  import opened ReceiveLog

  /** Packets left, left + 1, ..., right - 1. */
  datatype Block = Block(left: int, right: int)

  predicate Covers(c: Block, b: Block) {
    c.left <= b.left && b.right <= c.right
  }

  function Below(keys: set<int>, s: int): set<int> {
    set k | k in keys && k <= s
  }

  /** The first packet of the unbroken run of received packets ending at `s`. */
  function LeftEdge(keys: set<int>, s: int): (left: int)
    requires s in keys
    ensures left <= s && left - 1 !in keys
    ensures forall i | left <= i <= s :: i in keys
    decreases Below(keys, s)
  {
    if s - 1 in keys then
      assert s in Below(keys, s) && s !in Below(keys, s - 1);
      assert Below(keys, s - 1) <= Below(keys, s);
      LeftEdge(keys, s - 1)
    else s
  }

  /** The maximal run of received packets around `s`. */
  function Run(keys: set<int>, s: int): (b: Block)
    requires s in keys
    ensures b.left <= s < b.right && b.left - 1 !in keys && b.right !in keys
    ensures forall i | b.left <= i < b.right :: i in keys
  {
    Block(LeftEdge(keys, s), FirstGap(keys, s))
  }

  ghost predicate IsRun(keys: set<int>, b: Block) {
    && b.left < b.right
    && b.left - 1 !in keys && b.right !in keys
    && forall i | b.left <= i < b.right :: i in keys
  }

  /** The blocks of `bs` that `c` does not include. */
  function Uncovered(bs: seq<Block>, c: Block): (r: seq<Block>)
    ensures |r| <= |bs|
  {
    if bs == [] then []
    else if Covers(c, bs[0]) then Uncovered(bs[1..], c)
    else [bs[0]] + Uncovered(bs[1..], c)
  }

  function Take(bs: seq<Block>, n: nat): (r: seq<Block>)
    ensures r <= bs && |r| == if n <= |bs| then n else |bs|
  {
    if n <= |bs| then bs[..n] else bs
  }

  /** Every run above the cumulative acknowledgement, the one acknowledged most
      recently first. `acked` lists the packets that triggered acknowledgements,
      oldest first. No bound on the number of runs. */
  function Recency(acked: seq<int>, keys: set<int>): seq<Block> {
    if acked == [] then []
    else
      var rest, s := Recency(acked[..|acked| - 1], keys), acked[|acked| - 1];
      if s in keys && s > Cumulative(keys) then
        [Run(keys, s)] + Uncovered(rest, Run(keys, s))
      else rest
  }

  /** What becomes of the bounded history when `seqno` has just been taken into
      `keys` and is now acknowledged. */
  function StackAfter(stack: seq<Block>, keys: set<int>, seqno: int, size: nat): seq<Block>
    requires seqno < 0 || seqno in keys
  {
    if seqno < 0 || size == 0 then stack
    else if seqno < Cumulative(keys) then Uncovered(stack, Block(0, Cumulative(keys)))
    else Take([Run(keys, seqno)] + Uncovered(stack, Run(keys, seqno)), size)
  }

  // Runs

  lemma RunIsUnique(keys: set<int>, s: int, b: Block)
    requires s in keys && IsRun(keys, b) && b.left <= s < b.right
    ensures Run(keys, s) == b
  {
    var r := Run(keys, s);
    assert !(r.left < b.left) && !(b.left < r.left);
    assert !(r.right < b.right) && !(b.right < r.right);
  }

  /** Taking in `t` either leaves the run around `s` alone or merges it into the
      run around `t`. */
  lemma RunGrows(keys: set<int>, s: int, t: int)
    requires s in keys
    ensures var r, r', rt := Run(keys, s), Run(keys + {t}, s), Run(keys + {t}, t);
            (r' == rt && Covers(rt, r)) || (r' == r && !Covers(rt, r))
  {
    var keys' := keys + {t};
    var r, r', rt := Run(keys, s), Run(keys', s), Run(keys', t);
    if rt.left <= s < rt.right {
      RunIsUnique(keys', s, rt);
      assert !(r.left < rt.left) && !(rt.right < r.right);
    } else {
      if r.left <= t - 1 < r.right {
        StaysInRun(keys', t, s, r);
      }
      if r.left - 1 == t {
        StaysInRun(keys', t, s, Block(t, r.right));
      }
      if r.right == t {
        StaysInRun(keys', t, s, Block(r.left, t + 1));
      }
      RunIsUnique(keys', s, r);
    }
  }

  /** An unbroken stretch holding both `s` and `t` lies inside one run. */
  lemma StaysInRun(keys: set<int>, t: int, s: int, b: Block)
    requires t in keys && s in keys
    requires b.left <= s < b.right && b.left <= t <= b.right
    requires forall i | b.left <= i < b.right :: i in keys
    requires t < b.right || b.right in keys
    ensures Run(keys, t).left <= s < Run(keys, t).right
  {
    assert !(Run(keys, t).left > s) && !(Run(keys, t).right <= s);
  }

  // The list operations

  lemma UncoveredCons(b: Block, bs: seq<Block>, c: Block)
    ensures Uncovered([b] + bs, c) == if Covers(c, b) then Uncovered(bs, c) else [b] + Uncovered(bs, c)
  {
    assert ([b] + bs)[1..] == bs;
  }

  lemma {:induction false} UncoveredAppend(bs: seq<Block>, bs': seq<Block>, c: Block)
    ensures Uncovered(bs + bs', c) == Uncovered(bs, c) + Uncovered(bs', c)
  {
    if bs == [] {
      assert bs + bs' == bs';
    } else {
      var b, rest := bs[0], bs[1..];
      UncoveredAppend(rest, bs', c);
      UncoveredCons(b, rest + bs', c);
      assert bs + bs' == [b] + (rest + bs');
      hide Uncovered;
      Reassociate(b, Uncovered(rest, c), Uncovered(bs', c));
    }
  }

  lemma Reassociate(b: Block, r: seq<Block>, r': seq<Block>)
    ensures [b] + (r + r') == ([b] + r) + r'
  {}

  lemma {:induction false} UncoveredCommutes(bs: seq<Block>, c: Block, d: Block)
    ensures Uncovered(Uncovered(bs, c), d) == Uncovered(Uncovered(bs, d), c)
  {
    if bs != [] {
      UncoveredCommutes(bs[1..], c, d);
      UncoveredCons(bs[0], Uncovered(bs[1..], c), d);
      UncoveredCons(bs[0], Uncovered(bs[1..], d), c);
    }
  }

  lemma {:induction false} UncoveredAbsorbs(bs: seq<Block>, c: Block, d: Block)
    requires Covers(d, c)
    ensures Uncovered(Uncovered(bs, c), d) == Uncovered(bs, d)
  {
    if bs != [] {
      UncoveredAbsorbs(bs[1..], c, d);
      UncoveredCons(bs[0], Uncovered(bs[1..], c), d);
    }
  }

  lemma UncoveredPrefix(bs: seq<Block>, bs': seq<Block>, c: Block)
    requires bs <= bs'
    ensures Uncovered(bs, c) <= Uncovered(bs', c)
  {
    UncoveredAppend(bs, bs'[|bs|..], c);
    assert bs + bs'[|bs|..] == bs';
  }

  lemma {:induction false} UncoveredMembers(bs: seq<Block>, c: Block)
    ensures forall b :: b in Uncovered(bs, c) <==> b in bs && !Covers(c, b)
  {
    if bs != [] {
      UncoveredMembers(bs[1..], c);
    }
  }

  // The recency list as packets arrive

  lemma RecencyAppend(acked: seq<int>, s: int, keys: set<int>)
    ensures Recency(acked + [s], keys) ==
            if s in keys && s > Cumulative(keys) then
              [Run(keys, s)] + Uncovered(Recency(acked, keys), Run(keys, s))
            else Recency(acked, keys)
  {
    assert (acked + [s])[..|acked + [s]| - 1] == acked;
  }

  lemma {:induction false} RecencyAbove(acked: seq<int>, keys: set<int>, t: int)
    requires Cumulative(keys) < t
    requires forall s | s in acked :: s in keys || s < 0
    ensures var c := Run(keys + {t}, t);
            Uncovered(Recency(acked, keys + {t}), c) == Uncovered(Recency(acked, keys), c)
  {
    var keys' := keys + {t};
    GapIsUnique(keys', 0, Cumulative(keys));
    if acked != [] {
      var init, s, c := acked[..|acked| - 1], acked[|acked| - 1], Run(keys', t);
      RecencyAbove(init, keys, t);
      if s in keys && s > Cumulative(keys) {
        var rest, rest', b, b' := Recency(init, keys), Recency(init, keys'), Run(keys, s), Run(keys', s);
        RunGrows(keys, s, t);
        UncoveredCons(b, Uncovered(rest, b), c);
        UncoveredCons(b', Uncovered(rest', b'), c);
        if b' == c {
          UncoveredAbsorbs(rest, b, c);
          UncoveredAbsorbs(rest', c, c);
        } else {
          UncoveredCommutes(rest, b, c);
          UncoveredCommutes(rest', b, c);
        }
      }
    }
  }

  lemma {:induction false} RecencyBelow(acked: seq<int>, keys: set<int>, t: int)
    requires 0 <= t < Cumulative(keys + {t})
    requires forall s | s in acked :: s in keys || s < 0
    ensures Recency(acked, keys + {t}) ==
            Uncovered(Recency(acked, keys), Block(0, Cumulative(keys + {t})))
  {
    var keys' := keys + {t};
    var next, next' := Cumulative(keys), Cumulative(keys');
    assert !(next' < next);
    if acked != [] {
      var init, s, c := acked[..|acked| - 1], acked[|acked| - 1], Block(0, next');
      RecencyBelow(init, keys, t);
      if s in keys && s > next {
        var rest, rest', b := Recency(init, keys), Recency(init, keys'), Run(keys, s);
        UncoveredCons(b, Uncovered(rest, b), c);
        if s > next' {
          assert !(b.left <= next');
          RunIsUnique(keys', s, b);
          UncoveredCommutes(rest, b, c);
        } else {
          assert !(b.right > next') && !(b.left < 0);
          UncoveredAbsorbs(rest, b, c);
        }
      }
    }
  }

  /** What the recency list holds are runs above the acknowledgement. */
  lemma RecencyBounds(acked: seq<int>, keys: set<int>, b: Block)
    requires b in Recency(acked, keys)
    ensures Cumulative(keys) < b.left < b.right && b.right - 1 in keys
  {
    RecencyOnly(acked, keys, b);
    assert !(b.left <= Cumulative(keys));
  }

  lemma {:induction false} UncoveredNone(bs: seq<Block>, c: Block)
    requires forall b | b in bs :: !Covers(c, b)
    ensures Uncovered(bs, c) == bs
  {
    if bs != [] {
      UncoveredNone(bs[1..], c);
    }
  }

  lemma {:induction false} UncoveredAll(bs: seq<Block>, c: Block)
    requires forall b | b in bs :: Covers(c, b)
    ensures Uncovered(bs, c) == []
  {
    if bs != [] {
      UncoveredAll(bs[1..], c);
    }
  }

  lemma SameCumulative(keys: set<int>, t: int)
    requires Cumulative(keys + {t}) <= t
    ensures Cumulative(keys) == Cumulative(keys + {t})
  {
    var next := Cumulative(keys + {t});
    forall i | 0 <= i < next
      ensures i in keys
    {
      assert i in keys + {t};
    }
    GapIsUnique(keys, 0, next);
  }

  /** The bounded history is always the most recent part of the full list of
      runs: taking in and acknowledging a packet keeps it so. */
  lemma StackStep(stack: seq<Block>, acked: seq<int>, keys: set<int>, t: int, size: nat)
    requires stack <= Recency(acked, keys) && |stack| <= size
    requires forall s | s in acked :: s in keys || s < 0
    ensures var keys' := if t < 0 then keys else keys + {t};
            var after := StackAfter(stack, keys', t, size);
            after <= Recency(acked + [t], keys') && |after| <= size
  {
    if t >= 0 {
      var keys' := keys + {t};
      RecencyAppend(acked, t, keys');
      if t < Cumulative(keys') {
        var c := Block(0, Cumulative(keys'));
        RecencyBelow(acked, keys, t);
        UncoveredPrefix(stack, Recency(acked, keys), c);
      } else {
        SameCumulative(keys, t);
        RecencyAbove(acked, keys, t);
        UncoveredPrefix(stack, Recency(acked, keys), Run(keys', t));
      }
    } else {
      RecencyAppend(acked, t, keys);
    }
  }

  // What the recency list contains

  ghost predicate Triggered(acked: seq<int>, keys: set<int>, b: Block) {
    exists s | s in acked :: s in keys && s > Cumulative(keys) && b == Run(keys, s)
  }

  lemma {:induction false} RecencyOnly(acked: seq<int>, keys: set<int>, b: Block)
    requires b in Recency(acked, keys)
    ensures Triggered(acked, keys, b)
  {
    var init, s := acked[..|acked| - 1], acked[|acked| - 1];
    if s in keys && s > Cumulative(keys) && b == Run(keys, s) {
    } else {
      if s in keys && s > Cumulative(keys) {
        UncoveredMembers(Recency(init, keys), Run(keys, s));
      }
      RecencyOnly(init, keys, b);
      var u :| u in init && u in keys && u > Cumulative(keys) && b == Run(keys, u);
      assert u in acked;
    }
  }

  lemma {:induction false} RecencyHas(acked: seq<int>, keys: set<int>, u: int)
    requires u in acked && u in keys && u > Cumulative(keys)
    ensures Run(keys, u) in Recency(acked, keys)
  {
    hide FirstGap, LeftEdge, Uncovered;
    var init, s := acked[..|acked| - 1], acked[|acked| - 1];
    assert acked == init + [s];
    if u in init {
      RecencyHas(init, keys, u);
      if s in keys && s > Cumulative(keys) {
        UncoveredMembers(Recency(init, keys), Run(keys, s));
        if Covers(Run(keys, s), Run(keys, u)) {
          RunIsUnique(keys, u, Run(keys, s));
        }
      }
    }
  }

  ghost predicate Distinct(bs: seq<Block>) {
    forall i, j | 0 <= i < j < |bs| :: bs[i] != bs[j]
  }

  lemma {:induction false} RecencyDistinct(acked: seq<int>, keys: set<int>)
    ensures Distinct(Recency(acked, keys))
  {
    if acked != [] {
      var init, s := acked[..|acked| - 1], acked[|acked| - 1];
      RecencyDistinct(init, keys);
      if s in keys && s > Cumulative(keys) {
        UncoveredDistinct(Recency(init, keys), Run(keys, s));
        UncoveredMembers(Recency(init, keys), Run(keys, s));
        ConsDistinct(Run(keys, s), Uncovered(Recency(init, keys), Run(keys, s)));
      }
    }
  }

  lemma ConsDistinct(c: Block, bs: seq<Block>)
    requires Distinct(bs) && c !in bs
    ensures Distinct([c] + bs)
  {
    assert forall i | 0 < i <= |bs| :: ([c] + bs)[i] == bs[i - 1] && bs[i - 1] in bs;
  }

  lemma {:induction false} UncoveredDistinct(bs: seq<Block>, c: Block)
    requires Distinct(bs)
    ensures Distinct(Uncovered(bs, c))
  {
    if bs != [] {
      var tail := bs[1..];
      assert forall i | 0 <= i < |tail| :: tail[i] == bs[i + 1];
      UncoveredDistinct(tail, c);
      UncoveredMembers(tail, c);
    }
  }

  /** Every listed block is a maximal run of received packets strictly above the
      cumulative acknowledgement, and no two blocks overlap or touch. */
  lemma RecencyListsRuns(acked: seq<int>, keys: set<int>)
    ensures forall b | b in Recency(acked, keys) :: IsRun(keys, b) && b.left > Cumulative(keys)
    ensures forall i, j | 0 <= i < j < |Recency(acked, keys)| ::
              var b, c := Recency(acked, keys)[i], Recency(acked, keys)[j];
              b.right < c.left || c.right < b.left
  {
    var r := Recency(acked, keys);
    forall b | b in r
      ensures IsRun(keys, b) && b.left > Cumulative(keys)
    {
      RecencyOnly(acked, keys, b);
      RecencyBounds(acked, keys, b);
    }
    forall i, j | 0 <= i < j < |r|
      ensures r[i].right < r[j].left || r[j].right < r[i].left
    {
      RecencyDistinct(acked, keys);
      RunsApart(keys, r[i], r[j]);
    }
  }

  /** Once every packet above the acknowledgement has triggered one, every run
      above it is listed. */
  lemma RecencyListsAllRuns(acked: seq<int>, keys: set<int>, b: Block)
    requires forall s | s in keys && s > Cumulative(keys) :: s in acked
    requires IsRun(keys, b) && b.left > Cumulative(keys)
    ensures b in Recency(acked, keys)
  {
    assert b.left in keys;
    RunIsUnique(keys, b.left, b);
    RecencyHas(acked, keys, b.left);
  }

  lemma RunsApart(keys: set<int>, b: Block, c: Block)
    requires IsRun(keys, b) && IsRun(keys, c) && b != c
    ensures b.right < c.left || c.right < b.left
  {
    if b.left <= c.left < b.right {
      RunIsUnique(keys, c.left, b);
      RunIsUnique(keys, c.left, c);
    } else if c.left <= b.left < c.right {
      RunIsUnique(keys, b.left, b);
      RunIsUnique(keys, b.left, c);
    }
    assert c.left in keys && b.left in keys;
  }

  // When nothing has been forgotten

  /** After one acknowledgement the history is complete exactly when everything
      it had already forgotten has just been swallowed, and what remains fits. */
  lemma CompleteStep(stack: seq<Block>, acked: seq<int>, keys: set<int>, t: int, size: nat)
    requires stack <= Recency(acked, keys) && |stack| <= size && 0 < size
    requires 0 <= t && forall s | s in acked :: s in keys || s < 0
    ensures var keys' := keys + {t};
            var full, full' := Recency(acked, keys), Recency(acked + [t], keys');
            var c := if t < Cumulative(keys') then Block(0, Cumulative(keys')) else Run(keys', t);
            StackAfter(stack, keys', t, size) == full' <==>
            Uncovered(full[|stack|..], c) == [] && |full'| <= size
  {
    var keys' := keys + {t};
    var full := Recency(acked, keys);
    StackStep(stack, acked, keys, t, size);
    RecencyAppend(acked, t, keys');
    assert stack + full[|stack|..] == full;
    if t < Cumulative(keys') {
      RecencyBelow(acked, keys, t);
      UncoveredAppend(stack, full[|stack|..], Block(0, Cumulative(keys')));
    } else {
      SameCumulative(keys, t);
      RecencyAbove(acked, keys, t);
      UncoveredAppend(stack, full[|stack|..], Run(keys', t));
    }
  }

  /** The bounded history is the most recent part of the list of all runs. */
  ghost predicate Faithful(stack: seq<Block>, acked: seq<int>, keys: set<int>) {
    && stack <= Recency(acked, keys)
    && forall s | s in acked :: s in keys || s < 0
  }

  lemma CumulativeBefore(keys: set<int>, t: int)
    requires 0 <= t
    ensures Cumulative(keys) <= Cumulative(keys + {t})
    ensures t + 1 == Cumulative(keys + {t}) ==> Cumulative(keys) == if t in keys then t + 1 else t
  {
    assert Cumulative(keys + {t}) !in keys;
    if t in keys {
      assert keys + {t} == keys;
    } else if t + 1 == Cumulative(keys + {t}) {
      forall i | 0 <= i < t
        ensures i in keys
      {
        assert i in keys + {t};
      }
      GapIsUnique(keys, 0, t);
    }
  }

  /** Taking in an in-order packet without acknowledging it leaves the runs above
      it, and so the history, as they were. */
  lemma FaithfulDelay(stack: seq<Block>, acked: seq<int>, keys: set<int>, t: int, size: nat)
    requires Faithful(stack, acked, keys)
    requires 0 <= t && t + 1 == Cumulative(keys + {t})
    ensures Faithful(stack, acked, keys + {t})
    ensures StackAfter(stack, keys + {t}, t, size) == stack
  {
    CumulativeBefore(keys, t);
    RecencyBelow(acked, keys, t);
    forall b | b in Recency(acked, keys)
      ensures t + 1 < b.right
    {
      RecencyBounds(acked, keys, b);
    }
    UncoveredNone(Recency(acked, keys), Block(0, t + 1));
    UncoveredNone(stack, Block(0, t + 1));
  }

  /** The history of a receiver that acknowledges every packet of `trace`. */
  function Replay(trace: seq<int>, size: nat): seq<Block> {
    if trace == [] then []
    else StackAfter(Replay(trace[..|trace| - 1], size), Received(trace), trace[|trace| - 1], size)
  }

  lemma {:induction false} ReplayIsPrefix(trace: seq<int>, size: nat)
    ensures Replay(trace, size) <= Recency(trace, Received(trace)) && |Replay(trace, size)| <= size
  {
    if trace != [] {
      var init, t := trace[..|trace| - 1], trace[|trace| - 1];
      ReplayIsPrefix(init, size);
      assert trace == init + [t];
      assert Received(trace) == if t < 0 then Received(init) else Received(init) + {t};
      StackStep(Replay(init, size), init, Received(init), t, size);
    }
  }

  /** If from some acknowledgement with nothing above it the number of runs has
      never exceeded the block limit, every run is on the stack. */
  lemma {:induction false} ReplayComplete(trace: seq<int>, since: nat, size: nat)
    requires since <= |trace| && Recency(trace[..since], Received(trace[..since])) == []
    requires forall k | since <= k <= |trace| :: |Recency(trace[..k], Received(trace[..k]))| <= size
    ensures Replay(trace, size) == Recency(trace, Received(trace))
    decreases |trace|
  {
    hide Recency, Uncovered, FirstGap, LeftEdge;
    ReplayIsPrefix(trace, size);
    assert trace[..|trace|] == trace;
    if since < |trace| && size > 0 {
      var init, t := trace[..|trace| - 1], trace[|trace| - 1];
      forall k | since <= k <= |init|
        ensures |Recency(init[..k], Received(init[..k]))| <= size
      {
        assert init[..k] == trace[..k];
      }
      assert init[..since] == trace[..since];
      ReplayComplete(init, since, size);
      assert trace == init + [t];
      assert Received(trace) == if t < 0 then Received(init) else Received(init) + {t};
      if t >= 0 {
        CompleteStep(Replay(init, size), init, Received(init), t, size);
      } else {
        RecencyAppend(init, t, Received(trace));
      }
    }
  }

  lemma ReceivedEarly()
    ensures Received([4]) == {4} && Received([4, 2]) == {2, 4}
    ensures Received([4, 2, 0]) == {0, 2, 4} && Received([4, 2, 0, 1]) == {0, 1, 2, 4}
  {}

  lemma RunsEarly()
    ensures Cumulative({4}) == Cumulative({2, 4}) == 0 && Cumulative({0, 2, 4}) == 1 && Cumulative({0, 1, 2, 4}) == 3
    ensures Run({4}, 4) == Block(4, 5) && Run({2, 4}, 2) == Block(2, 3) && Run({0, 1, 2, 4}, 4) == Block(4, 5)
  {
    GapIsUnique({4}, 0, 0);
    GapIsUnique({2, 4}, 0, 0);
    GapIsUnique({0, 2, 4}, 0, 1);
    GapIsUnique({0, 1, 2, 4}, 0, 3);
    RunIsUnique({4}, 4, Block(4, 5));
    RunIsUnique({2, 4}, 2, Block(2, 3));
    RunIsUnique({0, 1, 2, 4}, 4, Block(4, 5));
  }

  /** An empty stack is not enough: with one block allowed, the run [4,5) is
      forgotten when [2,3) is reported, and the stack then empties while [4,5)
      is still waiting and is the only run. */
  lemma EmptyStackIsNotEnough()
    ensures Replay([4, 2, 0, 1], 1) == []
    ensures Recency([4, 2, 0, 1], Received([4, 2, 0, 1])) == [Block(4, 5)]
  {
    ReceivedEarly();
    RunsEarly();
    hide Received, Run, Cumulative;
    assert [4, 2, 0, 1][..3] == [4, 2, 0] && [4, 2, 0][..2] == [4, 2] && [4, 2][..1] == [4];
    assert Replay([4], 1) == [Block(4, 5)];
    assert Replay([4, 2], 1) == [Block(2, 3)];
    assert Replay([4, 2, 0], 1) == [Block(2, 3)];
  }
}
