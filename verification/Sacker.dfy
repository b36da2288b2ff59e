/** The SACK half of tcp-sink.cc: a bounded stack of blocks in a fixed array, and
    the routine that fills in the blocks of an acknowledgement. D-SACK is off. */
module Sackers {
  import opened ReceiveLog
  import opened Ackers
  import opened SackHistory

  const NO_BLOCK := Block(-1, -1)

  class SackStack {
    const size: nat
    var cnt: int
    const sfe: array<Block>

    ghost predicate Valid()
      reads this, sfe
    {
      && sfe.Length == size
      && 0 <= cnt <= size
      && forall i | cnt <= i < size :: sfe[i] == NO_BLOCK
    }

    ghost function Contents(): (bs: seq<Block>)
      requires Valid()
      reads this, sfe
      ensures |bs| <= size
    {
      sfe[..cnt]
    }

    constructor (size: nat)
      ensures Valid() && fresh(sfe) && this.size == size && Contents() == []
    {
      this.size := size;
      cnt := 0;
      sfe := new Block[size](_ => NO_BLOCK);
    }

    method Reset()
      requires Valid()
      modifies this, sfe
      ensures Valid() && Contents() == []
    {
      for i := 0 to cnt
        invariant cnt == old(cnt)
        invariant forall j | 0 <= j < i || cnt <= j < size :: sfe[j] == NO_BLOCK
      {
        sfe[i] := NO_BLOCK;
      }
      cnt := 0;
    }

    /** Makes room at the top, discarding the bottom block of a full stack. */
    method Push()
      requires Valid() && 0 < size
      modifies this, sfe
      ensures Valid() && 0 < cnt && Contents()[1..] == Take(old(Contents()), size - 1)
    {
      ghost var was := Contents();
      if cnt >= size {
        cnt := size - 1;
      }
      var i := cnt - 1;
      while i >= 0
        invariant -1 <= i < cnt && cnt == old(if cnt >= size then size - 1 else cnt)
        invariant forall j | 0 <= j <= i :: sfe[j] == was[j]
        invariant forall j | i + 1 < j <= cnt :: sfe[j] == was[j - 1]
        invariant forall j | cnt < j < size :: sfe[j] == NO_BLOCK
      {
        sfe[i + 1] := sfe[i];
        i := i - 1;
      }
      cnt := cnt + 1;
      assert |Contents()[1..]| == |Take(was, size - 1)|;
      assert forall j | 0 <= j < cnt - 1 :: Contents()[1..][j] == was[j];
    }

    method Pop(n: nat)
      requires Valid() && n < cnt
      modifies this, sfe
      ensures Valid() && Contents() == old(Contents())[..n] + old(Contents())[n + 1..]
    {
      ghost var was := Contents();
      var i := n;
      while i < cnt - 1
        invariant n <= i < cnt && cnt == old(cnt)
        invariant forall j | 0 <= j < n || i <= j < cnt :: sfe[j] == was[j]
        invariant forall j | n <= j < i :: sfe[j] == was[j + 1]
        invariant forall j | cnt <= j < size :: sfe[j] == NO_BLOCK
      {
        sfe[i] := sfe[i + 1];
        i := i + 1;
      }
      sfe[i] := NO_BLOCK;
      cnt := cnt - 1;
    }

    method SetHead(b: Block)
      requires Valid() && 0 < cnt
      modifies sfe
      ensures Valid() && Contents() == [b] + old(Contents())[1..]
    {
      sfe[0] := b;
    }

    /** The loop over the older blocks: those that `recent` covers leave the
        stack, the others are reported while there is room. */
    method Sift(first: seq<Block>, recent: Block, maxseen: int) returns (report: seq<Block>, ghost k: nat)
      requires Valid() && |first| <= size
      requires forall b | b in Contents() :: 0 <= b.left && 0 <= b.right <= maxseen + 1
      modifies this, sfe
      ensures Valid() && k <= |Contents()|
      ensures report == first + Contents()[..k] && |report| <= size
      ensures k < |Contents()| ==> |report| == size
      ensures Uncovered(old(Contents()), recent) == Contents()[..k] + Uncovered(Contents()[k..], recent)
    {
      hide SiftedTo, Bounded;
      ghost var was := Contents();
      SiftStart(was, recent);
      assert Bounded(was, maxseen) by {
        BoundedIs(was, maxseen);
      }
      report := first;
      var n := 0;
      while |report| < size
        invariant Valid() && 0 <= n <= |Contents()| && |report| <= size
        invariant report == first + Contents()[..n]
        invariant SiftedTo(was, Contents(), n, recent) && Bounded(Contents(), maxseen)
        decreases cnt - n
      {
        var sack := sfe[n];
        ghost var now := Contents();
        if sack.left < 0 || sack.right < 0 || sack.right > maxseen + 1 {
          if n < |now| {
            BoundedAt(now, maxseen, n);
          }
          break;
        }
        if recent.left <= sack.left && recent.right >= sack.right {
          SiftPop(was, now, n, recent, maxseen);
          Pop(n);
          assert Contents()[..n] == now[..n];
          continue;
        }
        SiftKeep(was, now, n, recent);
        assert now[..n + 1] == now[..n] + [sack];
        report := report + [sack];
        n := n + 1;
      }
      k := n;
      SiftEnd(was, Contents(), n, recent);
    }
  }

  /** The loop over older blocks has dealt with the first `n` of those left in `now`. */
  ghost predicate SiftedTo(was: seq<Block>, now: seq<Block>, n: nat, recent: Block) {
    n <= |now| && Uncovered(was, recent) == now[..n] + Uncovered(now[n..], recent)
  }

  /** Every block lies at or below the highest packet seen. */
  ghost predicate Bounded(bs: seq<Block>, maxseen: int) {
    forall b | b in bs :: 0 <= b.left && 0 <= b.right <= maxseen + 1
  }

  lemma BoundedIs(bs: seq<Block>, maxseen: int)
    requires forall b | b in bs :: 0 <= b.left && 0 <= b.right <= maxseen + 1
    ensures Bounded(bs, maxseen)
  {}

  lemma BoundedAt(bs: seq<Block>, maxseen: int, n: nat)
    requires Bounded(bs, maxseen) && n < |bs|
    ensures 0 <= bs[n].left && 0 <= bs[n].right <= maxseen + 1
  {
    assert bs[n] in bs;
  }

  lemma SiftStart(was: seq<Block>, recent: Block)
    ensures SiftedTo(was, was, 0, recent)
  {
    assert was[0..] == was && was[..0] == [];
  }

  lemma SiftEnd(was: seq<Block>, now: seq<Block>, n: nat, recent: Block)
    requires SiftedTo(was, now, n, recent)
    ensures n <= |now| && Uncovered(was, recent) == now[..n] + Uncovered(now[n..], recent)
  {}

  /** A covered block leaves. */
  lemma SiftPop(was: seq<Block>, now: seq<Block>, n: nat, recent: Block, maxseen: int)
    requires SiftedTo(was, now, n, recent) && Bounded(now, maxseen) && n < |now| && Covers(recent, now[n])
    ensures SiftedTo(was, now[..n] + now[n + 1..], n, recent) && Bounded(now[..n] + now[n + 1..], maxseen)
  {
    hide Uncovered;
    var after := now[..n] + now[n + 1..];
    assert now[n..] == [now[n]] + now[n + 1..];
    UncoveredCons(now[n], now[n + 1..], recent);
    assert after[..n] == now[..n] && after[n..] == now[n + 1..];
  }

  /** Any other block stays. */
  lemma SiftKeep(was: seq<Block>, now: seq<Block>, n: nat, recent: Block)
    requires SiftedTo(was, now, n, recent) && n < |now| && !Covers(recent, now[n])
    ensures SiftedTo(was, now, n + 1, recent)
  {
    hide Uncovered;
    assert now[n..] == [now[n]] + now[n + 1..];
    UncoveredCons(now[n], now[n + 1..], recent);
    assert now[..n + 1] == now[..n] + [now[n]];
  }

  /** Between `low` and one past the highest packet seen, a slot reads zero
      exactly for a packet not received. */
  lemma BufferReads(buffer: seq<int>, m: Sizes, low: int, maxseen: int)
    requires Window(buffer, m, low, maxseen) && forall s | s in m :: 0 < m[s]
    ensures forall s {:trigger Slot(s, |buffer|)} {:trigger s in m} | low <= s <= maxseen + 1 ::
              buffer[Slot(s, |buffer|)] != 0 <==> s in m
  {}

  class Sacker {
    const acker: Acker
    const sf: SackStack

    /** The packets that have triggered an acknowledgement. */
    ghost var acked: seq<int>

    ghost predicate Valid()
      reads this, acker, acker.seen, sf, sf.sfe
    {
      acker.Valid() && sf.Valid()
    }

    ghost function Keys(): set<int>
      reads acker
    {
      Recorded(acker.log).Keys
    }

    /** The stack lists the most recent runs of `keys`. */
    ghost predicate Remembers(keys: set<int>)
      requires sf.Valid()
      reads this, sf, sf.sfe
    {
      Faithful(sf.Contents(), acked, keys)
    }

    constructor (nblocks: nat)
      ensures Valid() && fresh(acker) && fresh(acker.seen) && fresh(sf) && fresh(sf.sfe)
      ensures acker.log == [] && acker.next == 0 && sf.size == nblocks && acked == []
      ensures Remembers({}) && sf.Contents() == []
    {
      acker := new Acker();
      sf := new SackStack(nblocks);
      acked := [];
    }

    /** Scans right from `from` for a slot that reads zero. */
    method FirstHole(from: int) returns (hole: int)
      requires 0 < acker.seen.Length && from <= acker.maxseen + 1
      ensures from <= hole <= acker.maxseen + 1
      ensures forall s | from <= s < hole :: acker.seen[Slot(s, acker.seen.Length)] != 0
      ensures hole <= acker.maxseen ==> acker.seen[Slot(hole, acker.seen.Length)] == 0
    {
      hole := -1;
      var i := from;
      while i <= acker.maxseen
        invariant from <= i <= acker.maxseen + 1 && hole == -1
        invariant forall s | from <= s < i :: acker.seen[Slot(s, acker.seen.Length)] != 0
      {
        if acker.seen[Slot(i, acker.seen.Length)] == 0 {
          hole := i;
          return;
        }
        i := i + 1;
      }
      hole := acker.maxseen + 1;
    }

    /** Scans left from `right - 1` down to `floor + 1`; one past the first slot
        that reads zero, or -1. */
    method LastHole(right: int, floor: int) returns (left: int)
      requires 0 < acker.seen.Length && 0 <= floor + 1
      ensures left == -1 || floor + 1 < left <= right
      ensures left != -1 ==> acker.seen[Slot(left - 1, acker.seen.Length)] == 0
      ensures forall s | (if left == -1 then floor + 1 else left) <= s < right ::
                acker.seen[Slot(s, acker.seen.Length)] != 0
    {
      left := -1;
      var i := right - 1;
      while i > floor
        invariant floor <= i < right || right <= floor + 1
        invariant forall s | i < s < right :: acker.seen[Slot(s, acker.seen.Length)] != 0
      {
        if acker.seen[Slot(i, acker.seen.Length)] == 0 {
          left := i + 1;
          return;
        }
        i := i - 1;
      }
    }

    /** The block the newest packet belongs to. For a packet at or below the
        acknowledgement the left edge is 0 and the right edge is found by reading
        slots that may be stale. */
    method RecentBlock(oldSeqno: int, ghost before: set<int>) returns (recent: Block)
      requires Valid() && 0 <= oldSeqno && oldSeqno in Keys()
      requires Keys() == before + {oldSeqno}
      requires Window(acker.seen[..], Recorded(acker.log), Cumulative(before), acker.maxseen)
      ensures oldSeqno > acker.Seqno() ==> recent == Run(Keys(), oldSeqno)
      ensures oldSeqno <= acker.Seqno() ==> recent.left == 0 && recent.right <= acker.next
      ensures Cumulative(before) <= oldSeqno <= acker.Seqno() ==> recent.right == acker.next
    {
      ghost var m := Recorded(acker.log);
      BufferReads(acker.seen[..], m, Cumulative(before), acker.maxseen);
      BufferReads(acker.seen[..], m, acker.next, acker.maxseen);
      var seqno := acker.Seqno();
      var sackRight := FirstHole(oldSeqno);
      var sackLeft := 0;
      if oldSeqno > seqno {
        sackLeft := LastHole(sackRight, seqno);
        assert acker.next !in m;
        RunIsUnique(m.Keys, oldSeqno, Block(sackLeft, sackRight));
      }
      recent := Block(sackLeft, sackRight);
    }

    /** The SACK option of the acknowledgement triggered by `oldSeqno`, the last
        packet taken into the window. */
    method AppendAck(oldSeqno: int, ghost before: set<int>) returns (report: seq<Block>)
      requires Valid() && Remembers(before)
      requires Keys() == if oldSeqno < 0 then before else before + {oldSeqno}
      requires Window(acker.seen[..], Recorded(acker.log), Cumulative(before), acker.maxseen)
      modifies this, sf, sf.sfe
      ensures Valid() && Remembers(Keys()) && acked == old(acked) + [oldSeqno]
      ensures sf.Contents() == StackAfter(old(sf.Contents()), Keys(), oldSeqno, sf.size)
      ensures report == if oldSeqno < 0 then [] else sf.Contents()
      ensures oldSeqno > acker.Seqno() && 0 < sf.size ==> |report| > 0 && report[0] == Run(Keys(), oldSeqno)
    {
      report := [];
      ghost var was := sf.Contents();
      var seqno := acker.Seqno();
      StackStep(was, acked, before, oldSeqno, sf.size);
      if oldSeqno < 0 {
      } else if seqno >= acker.maxseen && sf.cnt != 0 {
        forall b | b in was
          ensures Covers(Block(0, acker.next), b)
        {
          RecencyBounds(acked, before, b);
        }
        UncoveredAll(was, Block(0, acker.next));
        sf.Reset();
      } else if (seqno < acker.maxseen || acker.isDup) && sf.size > 0 {
        report := FillBlocks(oldSeqno, before);
      }
      acked := acked + [oldSeqno];
    }

    /** The branch of `AppendAck` that builds blocks. */
    method FillBlocks(oldSeqno: int, ghost before: set<int>) returns (report: seq<Block>)
      requires Valid() && Remembers(before) && 0 < sf.size
      requires 0 <= oldSeqno && Keys() == before + {oldSeqno}
      requires Window(acker.seen[..], Recorded(acker.log), Cumulative(before), acker.maxseen)
      modifies sf, sf.sfe
      ensures Valid()
      ensures sf.Contents() == StackAfter(old(sf.Contents()), Keys(), oldSeqno, sf.size)
      ensures report == sf.Contents()
    {
      hide Window, Recency, Uncovered, FirstGap, LeftEdge;
      ghost var was, keys := sf.Contents(), Keys();
      forall b | b in was
        ensures 0 <= b.left && 0 <= b.right <= acker.maxseen + 1
      {
        RecencyBounds(acked, before, b);
      }
      hide Holds;
      var recent := RecentBlock(oldSeqno, before);
      report := [];
      if oldSeqno > acker.Seqno() {
        report := [recent];
      }
      ghost var k;
      report, k := sf.Sift(report, recent, acker.maxseen);
      ghost var sifted := sf.Contents();
      if oldSeqno > acker.Seqno() {
        sf.Push();
        sf.SetHead(recent);
        PushedOver(was, sifted, k, recent, sf.size);
      } else {
        SameCover(acked, before, was, oldSeqno, keys, recent);
        assert k == |sifted| && sifted[k..] == [] && sifted[..k] == sifted;
      }
    }
  }

  /** A block the sifting loop never reached is the one that pushing onto a full
      stack discards. */
  lemma PushedOver(was: seq<Block>, sifted: seq<Block>, k: nat, recent: Block, size: nat)
    requires k < size && k <= |sifted| <= size && (k < |sifted| ==> k + 1 == size)
    requires Uncovered(was, recent) == sifted[..k] + Uncovered(sifted[k..], recent)
    ensures [recent] + Take(sifted, size - 1) == [recent] + sifted[..k]
    ensures Take([recent] + Uncovered(was, recent), size) == [recent] + sifted[..k]
  {}

  /** At or below the acknowledgement, a right edge read from stale slots removes
      the same blocks as the acknowledgement itself. */
  lemma SameCover(acked: seq<int>, before: set<int>, stack: seq<Block>, t: int, keys: set<int>, recent: Block)
    requires stack <= Recency(acked, before) && keys == before + {t}
    requires 0 <= t < Cumulative(keys) && recent.left == 0 && recent.right <= Cumulative(keys)
    requires Cumulative(before) <= t ==> recent.right == Cumulative(keys)
    ensures Uncovered(stack, recent) == Uncovered(stack, Block(0, Cumulative(keys)))
  {
    if t < Cumulative(before) {
      assert t in before && keys == before;
      forall b | b in stack
        ensures Cumulative(keys) < b.left < b.right
      {
        RecencyBounds(acked, before, b);
      }
      UncoveredNone(stack, recent);
      UncoveredNone(stack, Block(0, Cumulative(keys)));
    }
  }
}
