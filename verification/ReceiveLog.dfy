/** What a TCP receiver should know after a sequence of arrivals, stated without
    the circular buffer of tcp-sink.cc: which packets it holds, how many bytes it
    recorded for each, which packet it expects next, what it has delivered. */
module ReceiveLog {

  datatype Arrival = Arrival(seqno: int, bytes: int)

  type Sizes = map<int, int>

  function Above(keys: set<int>, from: int): set<int> {
    set k | k in keys && from <= k
  }

  /** The least number at or above `from` that is not in `keys`. */
  function FirstGap(keys: set<int>, from: int): (gap: int)
    ensures from <= gap && gap !in keys
    ensures forall i | from <= i < gap :: i in keys
    decreases Above(keys, from)
  {
    if from in keys then
      assert from in Above(keys, from) && from !in Above(keys, from + 1);
      assert Above(keys, from + 1) <= Above(keys, from);
      FirstGap(keys, from + 1)
    else from
  }

  /** The packet a receiver expects next: everything below it has arrived. */
  function Cumulative(keys: set<int>): int {
    FirstGap(keys, 0)
  }

  /** A packet already delivered is not recorded again; a packet still waiting in
      the window is recorded with the size of its latest copy. */
  function Record(m: Sizes, a: Arrival): Sizes {
    if a.seqno < Cumulative(m.Keys) then m else m[a.seqno := a.bytes]
  }

  function Recorded(log: seq<Arrival>): Sizes {
    if log == [] then map[] else Record(Recorded(log[..|log| - 1]), log[|log| - 1])
  }

  function Next(log: seq<Arrival>): int {
    Cumulative(Recorded(log).Keys)
  }

  /** The sequence numbers in `log`, in order of arrival. */
  function Numbers(log: seq<Arrival>): (r: seq<int>)
    ensures |r| == |log| && forall i | 0 <= i < |r| :: r[i] == log[i].seqno
  {
    seq(|log|, i requires 0 <= i < |log| => log[i].seqno)
  }

  function Received(trace: seq<int>): set<int> {
    set s | s in trace && 0 <= s
  }

  lemma NumbersAppend(log: seq<Arrival>, a: Arrival)
    ensures Numbers(log + [a]) == Numbers(log) + [a.seqno]
  {}

  function SumBelow(m: Sizes, n: nat): int
    requires forall i | 0 <= i < n :: i in m
  {
    if n == 0 then 0 else SumBelow(m, n - 1) + m[n - 1]
  }

  /** Bytes handed to the application after the arrivals in `log`. */
  function Delivered(log: seq<Arrival>): int {
    SumBelow(Recorded(log), Next(log))
  }

  lemma GapIsUnique(keys: set<int>, from: int, gap: int)
    requires from <= gap && gap !in keys
    requires forall i | from <= i < gap :: i in keys
    ensures FirstGap(keys, from) == gap
  {
    var g := FirstGap(keys, from);
    assert !(g < gap) && !(gap < g);
  }

  lemma RecordedAppend(log: seq<Arrival>, a: Arrival)
    ensures Recorded(log + [a]) == Record(Recorded(log), a)
    ensures Received(Numbers(log + [a])) == Received(Numbers(log)) + if 0 <= a.seqno then {a.seqno} else {}
  {
    assert (log + [a])[..|log + [a]| - 1] == log;
    NumbersAppend(log, a);
  }

  /** Exactly the packets that arrived are on record. */
  lemma {:induction false} RecordedKeys(log: seq<Arrival>)
    ensures Recorded(log).Keys == Received(Numbers(log))
  {
    if log != [] {
      var init, a := log[..|log| - 1], log[|log| - 1];
      assert log == init + [a];
      RecordedKeys(init);
      RecordedAppend(init, a);
    }
  }

  lemma {:induction false} SumAgrees(m: Sizes, m': Sizes, n: nat)
    requires forall i | 0 <= i < n :: i in m && i in m' && m[i] == m'[i]
    ensures SumBelow(m, n) == SumBelow(m', n)
  {
    if n > 0 {
      SumAgrees(m, m', n - 1);
    }
  }

  /** One size per sequence number: the sender never re-cuts a packet. */
  predicate OneSize(log: seq<Arrival>, size: int -> int) {
    forall a | a in log :: a.bytes == size(a.seqno)
  }

  lemma {:induction false} RecordedSizes(log: seq<Arrival>, size: int -> int)
    requires OneSize(log, size)
    ensures forall s | s in Recorded(log) :: Recorded(log)[s] == size(s)
  {
    if log != [] {
      var init, a := log[..|log| - 1], log[|log| - 1];
      assert forall b | b in init :: b in log;
      RecordedSizes(init, size);
      assert a in log;
    }
  }

  lemma {:induction false} SumOfEqual(m: Sizes, n: nat, bytes: int)
    requires forall i | 0 <= i < n :: i in m && m[i] == bytes
    ensures SumBelow(m, n) == n * bytes
  {
    if n > 0 {
      SumOfEqual(m, n - 1, bytes);
    }
  }

  /** Packets of one size: what has been delivered is that size for every packet below
      the expected one. */
  lemma DeliversWhole(log: seq<Arrival>, bytes: int)
    requires OneSize(log, _ => bytes)
    ensures Delivered(log) == Next(log) * bytes
  {
    RecordedSizes(log, _ => bytes);
    SumOfEqual(Recorded(log), Next(log), bytes);
  }

  /** Reordering and duplication change neither the next expected packet nor,
      when every packet has one size, the number of bytes delivered. */
  lemma OrderIndependence(log: seq<Arrival>, log': seq<Arrival>, size: int -> int)
    requires Received(Numbers(log)) == Received(Numbers(log'))
    ensures Next(log) == Next(log')
    ensures OneSize(log, size) && OneSize(log', size) ==> Delivered(log) == Delivered(log')
  {
    RecordedKeys(log);
    RecordedKeys(log');
    if OneSize(log, size) && OneSize(log', size) {
      RecordedSizes(log, size);
      RecordedSizes(log', size);
      SumAgrees(Recorded(log), Recorded(log'), Next(log));
    }
  }

  /** More arrivals never move the expected packet back. */
  lemma NextGrows(log: seq<Arrival>, a: Arrival)
    ensures Next(log) <= Next(log + [a])
  {
    RecordedAppend(log, a);
    assert Next(log + [a]) !in Recorded(log);
  }
}
