/** The receive window of tcp-sink.cc: a circular buffer that doubles on demand
    and never clears the slots it leaves behind, refined against ReceiveLog. */
module Ackers {
  import opened Arith
  import opened ReceiveLog

  /** MWS of tcp-sink.h. */
  const INITIAL_WINDOW := 64

  ghost predicate PowerOfTwo(n: int)
    decreases n
  {
    n == 1 || (n > 1 && n % 2 == 0 && PowerOfTwo(n / 2))
  }

  /** The C operator `&` on non-negative numbers. */
  function BitAnd(x: nat, y: nat): nat {
    if x == 0 || y == 0 then 0 else 2 * BitAnd(x / 2, y / 2) + if x % 2 == 1 && y % 2 == 1 then 1 else 0
  }

  /** Why `seq & wndmask_` may be read as a remainder. */
  lemma {:induction false} MaskIsRemainder(x: nat, size: nat)
    requires PowerOfTwo(size)
    ensures BitAnd(x, size - 1) == x % size
  {
    if x == 0 {
      RemainderIs(x, size, 0, 0);
    } else if size == 1 {
      RemainderIs(x, size, x, 0);
    } else {
      var half, mask := size / 2, size - 1;
      MaskIsRemainder(x / 2, half);
      DoubledRemainder(x, half);
      assert mask / 2 == half - 1 && mask % 2 == 1;
      assert BitAnd(x, mask) == 2 * BitAnd(x / 2, mask / 2) + if x % 2 == 1 then 1 else 0;
      assert BitAnd(x, mask) == x % (2 * half);
    }
  }

  lemma DoubledRemainder(x: nat, half: nat)
    requires 0 < half
    ensures x % (2 * half) == 2 * ((x / 2) % half) + x % 2
  {
    var q, r := x / 2 / half, (x / 2) % half;
    assert x / 2 == half * q + r;
    assert (2 * half) * q == 2 * (half * q);
    RemainderIs(x, 2 * half, q, 2 * r + x % 2);
  }

  function Slot(i: int, size: int): (s: int)
    requires size > 0
    ensures 0 <= s < size
  {
    i % size
  }

  lemma SlotsDiffer(i: int, j: int, size: int)
    requires i != j && -size < i - j < size
    ensures Slot(i, size) != Slot(j, size)
  {
    if i % size == j % size {
      if i > j {
        SameRemainderFarApart(i, j, size);
      } else {
        SameRemainderFarApart(j, i, size);
      }
    }
  }

  /** Packets closer together than the buffer is long never share a slot. */
  lemma SlotsApart(size: int)
    requires size > 0
    ensures forall i, j {:trigger Slot(i, size), Slot(j, size)} ::
              i != j && -size < i - j < size ==> Slot(i, size) != Slot(j, size)
  {
    forall i, j {:trigger Slot(i, size), Slot(j, size)} | i != j && -size < i - j < size
      ensures Slot(i, size) != Slot(j, size)
    {
      SlotsDiffer(i, j, size);
    }
  }

  function SizeOf(m: Sizes, s: int): int {
    if s in m then m[s] else 0
  }

  /** From the expected packet up to one past the highest seen, a slot holds the
      recorded size of its packet, or zero for a packet not yet received. Slots
      outside that range may hold anything. */
  ghost predicate Window(buffer: seq<int>, m: Sizes, next: int, maxseen: int) {
    && |buffer| > 0
    && 0 <= next <= maxseen + 1
    && maxseen + 2 - next < |buffer|
    && forall s {:trigger Slot(s, |buffer|)} | next <= s <= maxseen + 1 ::
         buffer[Slot(s, |buffer|)] == SizeOf(m, s)
  }

  /** The whole state of the receiver against the sizes it has recorded. */
  ghost predicate Holds(buffer: seq<int>, m: Sizes, next: int, maxseen: int) {
    && INITIAL_WINDOW <= |buffer|
    && PowerOfTwo(|buffer|)
    && (forall s | s in m :: 0 <= s <= maxseen && 0 < m[s])
    && (0 < maxseen ==> maxseen in m)
    && next == Cumulative(m.Keys)
    && Window(buffer, m, next, maxseen)
  }

  lemma WindowSet(buffer: seq<int>, m: Sizes, next: int, maxseen: int, seqno: int, bytes: int)
    requires Window(buffer, m, next, maxseen) && next <= seqno <= maxseen
    ensures Window(buffer[Slot(seqno, |buffer|) := bytes], m[seqno := bytes], next, maxseen)
  {
    SlotsApart(|buffer|);
  }

  class Acker {
    var next: int
    var maxseen: int
    var wndmask: int
    var seen: array<int>
    var isDup: bool

    ghost var log: seq<Arrival>

    ghost predicate Valid()
      reads this, seen
    {
      seen.Length == wndmask + 1 && Holds(seen[..], Recorded(log), next, maxseen)
    }

    constructor ()
      ensures Valid() && fresh(seen)
      ensures log == [] && next == 0 && maxseen == 0
    {
      next, maxseen, wndmask, isDup := 0, 0, INITIAL_WINDOW - 1, false;
      seen := new int[INITIAL_WINDOW](_ => 0);
      log := [];
    }

    method Reset()
      requires Valid()
      modifies this, seen
      ensures Valid() && seen == old(seen) && log == [] && next == 0 && maxseen == 0
    {
      next, maxseen, log := 0, 0, [];
      forall i | 0 <= i < seen.Length {
        seen[i] := 0;
      }
    }

    /** The cumulative acknowledgement. */
    function Seqno(): int
      reads this
    {
      next - 1
    }

    method ResizeBuffers(size: int)
      requires Valid() && size == 2 * seen.Length
      modifies this`seen, this`wndmask
      ensures Valid() && fresh(seen) && seen.Length == size
    {
      var newSeen := new int[size](_ => 0);
      SlotsApart(size);
      var i := next;
      while i <= maxseen + 1
        invariant next <= i <= maxseen + 2
        invariant forall s {:trigger Slot(s, size)} | next <= s < i ::
                    newSeen[Slot(s, size)] == SizeOf(Recorded(log), s)
        modifies newSeen
      {
        assert seen[..][Slot(i, seen.Length)] == SizeOf(Recorded(log), i);
        newSeen[Slot(i, size)] := seen[Slot(i, seen.Length)];
        i := i + 1;
      }
      seen := newSeen;
      wndmask := size - 1;
      assert |seen[..]| == size;
    }

    /** Takes one packet into the window; returns the bytes that become
        deliverable. */
    method Update(seqno: int, numBytes: int) returns (numToDeliver: int)
      requires Valid() && 0 < numBytes
      modifies this, seen
      ensures Valid() && (seen == old(seen) || fresh(seen))
      ensures log == old(log) + [Arrival(seqno, numBytes)]
      ensures isDup <==> seqno < 0 || seqno in Received(Numbers(old(log)))
      ensures numToDeliver == Delivered(log) - Delivered(old(log))
      ensures Window(seen[..], Recorded(log), old(next), maxseen)
      ensures maxseen == if seqno > old(maxseen) then seqno else old(maxseen)
    {
      hide Window, Recorded, Received, SumBelow, Record, Slot, PowerOfTwo, Cumulative;
      isDup := false;
      while seqno + 1 - next >= wndmask
        invariant Valid() && (seen == old(seen) || fresh(seen))
        invariant log == old(log) && next == old(next) && maxseen == old(maxseen) && !isDup
        decreases seqno + 1 - next - wndmask
      {
        ResizeBuffers((wndmask + 1) * 2);
      }
      numToDeliver := Admit(seqno, numBytes, Recorded(log));
      RecordedKeys(log);
      RecordedAppend(log, Arrival(seqno, numBytes));
      log := log + [Arrival(seqno, numBytes)];
    }

    /** `Update` once the buffer is large enough. */
    method Admit(seqno: int, numBytes: int, ghost m: Sizes) returns (numToDeliver: int)
      requires Holds(seen[..], m, next, maxseen)
      requires 0 < numBytes && seqno + 2 - next < seen.Length
      modifies this`next, this`maxseen, this`isDup, seen
      ensures Holds(seen[..], Record(m, Arrival(seqno, numBytes)), next, maxseen)
      ensures Window(seen[..], Record(m, Arrival(seqno, numBytes)), old(next), maxseen)
      ensures isDup <==> seqno < 0 || seqno in m
      ensures numToDeliver == SumBelow(Record(m, Arrival(seqno, numBytes)), next) - SumBelow(m, old(next))
      ensures maxseen == if seqno > old(maxseen) then seqno else old(maxseen)
    {
      hide Slot, PowerOfTwo;
      var justMarkedAsSeen := false;
      isDup := false;
      numToDeliver := 0;
      ghost var buffer := seen[..];
      if seqno > maxseen {
        RaiseMaxseen(seqno, m);
        buffer := seen[..];
        seen[Slot(maxseen, seen.Length)] := numBytes;
        justMarkedAsSeen := true;
      }
      if seqno < next {
        isDup := true;
      }
      if next <= seqno <= maxseen {
        if seen[Slot(seqno, seen.Length)] != 0 && !justMarkedAsSeen {
          isDup := true;
        }
        seen[Slot(seqno, seen.Length)] := numBytes;
        ghost var m' := m[seqno := numBytes];
        WindowSet(buffer, m, next, maxseen, seqno, numBytes);
        assert seen[..] == buffer[Slot(seqno, seen.Length) := numBytes];
        SumAgrees(m, m', next);
        numToDeliver := Collect(m');
      }
    }

    /** The branch for a packet above everything seen: the packets skipped over
        are marked as not received, and so is the one after the new highest. */
    method RaiseMaxseen(seqno: int, ghost m: Sizes)
      requires Window(seen[..], m, next, maxseen)
      requires maxseen < seqno && seqno + 2 - next < seen.Length
      requires forall s | s in m :: s <= maxseen
      modifies seen, this`maxseen
      ensures maxseen == seqno && Window(seen[..], m, next, maxseen)
    {
      SlotsApart(seen.Length);
      hide Slot;
      ClearSkipped(seqno, m);
      maxseen := seqno;
      seen[Slot(maxseen, seen.Length)] := 0;
      seen[Slot(maxseen + 1, seen.Length)] := 0;
    }

    /** Marks the packets from one past the highest to `seqno - 1` as not received. */
    method ClearSkipped(seqno: int, ghost m: Sizes)
      requires Window(seen[..], m, next, maxseen)
      requires maxseen < seqno && seqno + 2 - next < seen.Length
      requires forall s | s in m :: s <= maxseen
      modifies seen
      ensures forall s {:trigger Slot(s, seen.Length)} | next <= s < seqno :: seen[Slot(s, seen.Length)] == SizeOf(m, s)
    {
      ghost var size, buffer := seen.Length, seen[..];
      SlotsApart(size);
      hide Slot;
      assert forall s | next <= s <= maxseen :: seen[Slot(s, size)] == buffer[Slot(s, size)];
      var i := maxseen + 1;
      while i < seqno
        invariant maxseen + 1 <= i <= seqno
        invariant forall s {:trigger Slot(s, size)} | next <= s < i :: seen[Slot(s, size)] == SizeOf(m, s)
      {
        seen[Slot(i, seen.Length)] := 0;
        i := i + 1;
      }
    }

    /** The delivery loop: moves `next` over every packet now in order. */
    method Collect(ghost m: Sizes) returns (numToDeliver: int)
      requires Window(seen[..], m, next, maxseen)
      requires forall s | s in m :: s <= maxseen && 0 < m[s]
      requires forall s | 0 <= s < next :: s in m
      modifies this`next
      ensures Window(seen[..], m, next, maxseen)
      ensures next == Cumulative(m.Keys)
      ensures forall s | 0 <= s < next :: s in m
      ensures numToDeliver == SumBelow(m, next) - SumBelow(m, old(next))
    {
      numToDeliver := 0;
      assert forall s | next <= s <= maxseen + 1 :: seen[Slot(s, seen.Length)] == seen[..][Slot(s, seen.Length)];
      var n := next;
      while seen[Slot(n, seen.Length)] != 0
        invariant next <= n <= maxseen + 1
        invariant forall s | 0 <= s < n :: s in m
        invariant numToDeliver == SumBelow(m, n) - SumBelow(m, next)
        decreases maxseen + 1 - n
      {
        numToDeliver := numToDeliver + seen[Slot(n, seen.Length)];
        n := n + 1;
      }
      next := n;
      GapIsUnique(m.Keys, 0, n);
    }
  }
}
