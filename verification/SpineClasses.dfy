/** Which spines a pair of leaves may use, given a list of failed links: a
    reference definition, independent of the tables tcp.cc keeps. */
module SpineClasses {
  import opened Rotation

  /** A failed link between a leaf and a spine; ratio 100 is a full failure. */
  datatype FailedLink = FailedLink(leaf: int, spine: nat, failureRatio: int)

  datatype Pair = Pair(srcLeaf: int, destLeaf: int)

  datatype Class =
    | DaNone         // no failure at all
    | DaPartial      // a failure elsewhere, the first one partial
    | DaFull         // a failure elsewhere, the first one full
    | DirectPartial  // only partial failures on links of this pair
    | DirectFull     // a full failure on a link of this pair

  predicate IsDirect(f: FailedLink, p: Pair) {
    f.leaf == p.srcLeaf || f.leaf == p.destLeaf
  }

  predicate IsFull(f: FailedLink) {
    f.failureRatio == 100
  }

  ghost predicate HasDirect(fs: seq<FailedLink>, p: Pair, s: nat) {
    exists f | f in fs :: f.spine == s && IsDirect(f, p)
  }

  ghost predicate HasDirectFull(fs: seq<FailedLink>, p: Pair, s: nat) {
    exists f | f in fs :: f.spine == s && IsDirect(f, p) && IsFull(f)
  }

  /** Whether the first failure listed on `s` is full; false without failures. */
  predicate FirstIsFull(fs: seq<FailedLink>, s: nat) {
    fs != [] && if fs[0].spine == s then IsFull(fs[0]) else FirstIsFull(fs[1..], s)
  }

  ghost predicate HasAny(fs: seq<FailedLink>, s: nat) {
    exists f | f in fs :: f.spine == s
  }

  ghost function ClassOf(fs: seq<FailedLink>, p: Pair, s: nat): Class {
    if HasDirectFull(fs, p, s) then DirectFull
    else if HasDirect(fs, p, s) then DirectPartial
    else if !HasAny(fs, s) then DaNone
    else if FirstIsFull(fs, s) then DaFull
    else DaPartial
  }

  predicate Indirect(c: Class) {
    c.DaNone? || c.DaPartial? || c.DaFull?
  }

  /** How one more failure on a spine changes its class. */
  function Refine(c: Class, f: FailedLink, p: Pair): Class {
    if IsDirect(f, p) then
      if IsFull(f) || c.DirectFull? then DirectFull else DirectPartial
    else if c.DaNone? then
      if IsFull(f) then DaFull else DaPartial
    else c
  }

  lemma {:induction false} FirstAppend(fs: seq<FailedLink>, f: FailedLink, s: nat)
    ensures FirstIsFull(fs + [f], s) ==
            if HasAny(fs, s) then FirstIsFull(fs, s) else f.spine == s && IsFull(f)
  {
    if fs == [] {
      assert fs + [f] == [f];
    } else {
      var g, rest := fs[0], fs[1..];
      assert (fs + [f])[1..] == rest + [f];
      FirstAppend(rest, f, s);
      assert forall h :: h in fs <==> h == g || h in rest;
    }
  }

  lemma ClassAppend(fs: seq<FailedLink>, f: FailedLink, p: Pair, s: nat)
    ensures ClassOf(fs + [f], p, s) ==
            if f.spine == s then Refine(ClassOf(fs, p, s), f, p) else ClassOf(fs, p, s)
  {
    assert forall h :: h in fs + [f] <==> h in fs || h == f;
    FirstAppend(fs, f, s);
    assert HasDirect(fs, p, s) ==> HasAny(fs, s);
    assert HasDirect(fs + [f], p, s) <==> HasDirect(fs, p, s) || (f.spine == s && IsDirect(f, p));
    assert HasDirectFull(fs + [f], p, s) <==>
           HasDirectFull(fs, p, s) || (f.spine == s && IsDirect(f, p) && IsFull(f));
    assert HasAny(fs + [f], s) <==> HasAny(fs, s) || f.spine == s;
  }

  /** The direct classes depend on the set of failures, not on their order. */
  lemma DirectOrderIndependent(fs: seq<FailedLink>, fs': seq<FailedLink>, p: Pair, s: nat)
    requires forall f :: f in fs <==> f in fs'
    ensures ClassOf(fs, p, s) == ClassOf(fs', p, s) ||
            (Indirect(ClassOf(fs, p, s)) && Indirect(ClassOf(fs', p, s)))
    ensures ClassOf(fs, p, s).DaNone? <==> ClassOf(fs', p, s).DaNone?
  {
    assert HasDirect(fs, p, s) <==> HasDirect(fs', p, s);
    assert HasDirectFull(fs, p, s) <==> HasDirectFull(fs', p, s);
    assert HasAny(fs, s) <==> HasAny(fs', s);
  }

  ghost function Classes(fs: seq<FailedLink>, p: Pair, n: nat): (cs: seq<Class>)
    ensures |cs| == n && forall s | 0 <= s < n :: cs[s] == ClassOf(fs, p, s)
  {
    seq(n, s requires 0 <= s < n => ClassOf(fs, p, s))
  }

  lemma ClassesAppend(fs: seq<FailedLink>, f: FailedLink, p: Pair, n: nat)
    requires f.spine < n
    ensures Classes(fs + [f], p, n) ==
            Classes(fs, p, n)[f.spine := Refine(Classes(fs, p, n)[f.spine], f, p)]
  {
    forall s | 0 <= s < n
      ensures ClassOf(fs + [f], p, s) ==
              if f.spine == s then Refine(ClassOf(fs, p, s), f, p) else ClassOf(fs, p, s)
    {
      ClassAppend(fs, f, p, s);
    }
  }

  // Counting spines by class

  function Tally(cs: seq<Class>, c: Class): nat {
    if cs == [] then 0
    else Tally(cs[..|cs| - 1], c) + if cs[|cs| - 1] == c then 1 else 0
  }

  lemma {:induction false} TallyUpdate(cs: seq<Class>, i: nat, d: Class, c: Class)
    requires i < |cs|
    ensures Tally(cs[i := d], c) + (if cs[i] == c then 1 else 0) == Tally(cs, c) + if d == c then 1 else 0
  {
    var n := |cs| - 1;
    if i == n {
      assert cs[i := d][..n] == cs[..n];
    } else {
      assert cs[i := d][..n] == cs[..n][i := d];
      TallyUpdate(cs[..n], i, d, c);
    }
  }

  lemma {:induction false} TallyAll(cs: seq<Class>)
    ensures Tally(cs, DaNone) + Tally(cs, DaPartial) + Tally(cs, DaFull) +
            Tally(cs, DirectPartial) + Tally(cs, DirectFull) == |cs|
  {
    if cs != [] {
      TallyAll(cs[..|cs| - 1]);
    }
  }

  lemma {:induction false} TallyPositive(cs: seq<Class>, c: Class)
    ensures 0 < Tally(cs, c) <==> c in cs
  {
    if cs != [] {
      TallyPositive(cs[..|cs| - 1], c);
      assert cs == cs[..|cs| - 1] + [cs[|cs| - 1]];
    }
  }

  /** The spines of one class as a ring of live positions. */
  function Mask(cs: seq<Class>, c: Class): (live: seq<bool>)
    ensures |live| == |cs| && forall s | 0 <= s < |cs| :: live[s] == (cs[s] == c)
  {
    seq(|cs|, s requires 0 <= s < |cs| => cs[s] == c)
  }

  /** The spines with no direct failure. */
  function IndirectMask(cs: seq<Class>): (live: seq<bool>)
    ensures |live| == |cs| && forall s | 0 <= s < |cs| :: live[s] == Indirect(cs[s])
  {
    seq(|cs|, s requires 0 <= s < |cs| => Indirect(cs[s]))
  }

  lemma {:induction false} TallyIsMembers(cs: seq<Class>, c: Class)
    ensures |Members(Mask(cs, c))| == Tally(cs, c)
  {
    if cs != [] {
      var init := cs[..|cs| - 1];
      assert Mask(cs, c)[..|cs| - 1] == Mask(init, c);
      TallyIsMembers(init, c);
    }
  }

  lemma {:induction false} IndirectMembers(cs: seq<Class>)
    ensures |Members(IndirectMask(cs))| + Tally(cs, DirectPartial) + Tally(cs, DirectFull) == |cs|
  {
    if cs != [] {
      var init := cs[..|cs| - 1];
      assert IndirectMask(cs)[..|cs| - 1] == IndirectMask(init);
      IndirectMembers(init);
    }
  }
}
