/** Returning the frames of a dropped address space to the free stack. */
module Reclaim {
  import opened Fork
  import opened Ownership
  import opened Paging
  import opened Spaces

  /** Node `p` of the tree and everything under it. */
  ghost function Below(t: Tree, p: Path): set<Path> {
    set q | q in t && p <= q
  }

  /** Everything under entries 0 .. i of node `p`. */
  ghost function BelowTo(t: Tree, p: Path, i: nat): set<Path> {
    set q | q in t && p <= q && |p| < |q| && q[|p|] < i
  }

  ghost function Frames(t: Tree, region: set<Path>): set<Frame> {
    set q | q in region && q in t :: t[q]
  }

  /** From `s` to `s'` exactly the frames of `region` were pushed, once each; nothing else changed. */
  ghost predicate Returned(s: Snap, s': Snap, t: Tree, region: set<Path>) {
    && s' == s.(free := s'.free)
    && s.free <= s'.free
    && |s'.free| == |s.free| + |region|
    && (forall f :: f in s'.free <==> f in s.free || f in Frames(t, region))
  }

  ghost predicate AllLoose(s: Snap, t: Tree, region: set<Path>) {
    forall q | q in t && q in region :: Loose(s, t[q])
  }

  lemma PushKeeps(s: Snap, f: Frame)
    requires Inv(s) && Loose(s, f)
    ensures |s.free| < MAX_FRAMES
    ensures Inv(s.(free := s.free + [f]))
  {
    NotFull(s, f);
    hide SpacesOk, OwnersOk;
  }

  lemma ReturnedOne(s: Snap, t: Tree, q: Path)
    requires q in t
    ensures Returned(s, s.(free := s.free + [t[q]]), t, {q})
  {
    assert Frames(t, {q}) == {t[q]};
  }

  lemma ReturnedNone(s: Snap, t: Tree)
    ensures Returned(s, s, t, {})
  {
  }

  lemma ReturnedTrans(s: Snap, s1: Snap, s2: Snap, t: Tree, a: set<Path>, b: set<Path>)
    requires Returned(s, s1, t, a) && Returned(s1, s2, t, b) && a !! b
    ensures Returned(s, s2, t, a + b)
  {
    assert Frames(t, a + b) == Frames(t, a) + Frames(t, b);
  }

  /** Frames of other nodes are still loose, because the tree is injective. */
  lemma StillLoose(s: Snap, s': Snap, t: Tree, done: set<Path>, rest: set<Path>)
    requires Injective(t) && AllLoose(s, t, rest) && Returned(s, s', t, done) && done !! rest
    ensures AllLoose(s', t, rest)
  {
  }

  lemma BelowStep(t: Tree, p: Path, i: nat)
    ensures BelowTo(t, p, i + 1) == BelowTo(t, p, i) + Below(t, Child(p, i))
    ensures BelowTo(t, p, i) !! Below(t, Child(p, i))
    ensures Below(t, Child(p, i)) <= Below(t, p)
  {
    forall q | q in t
      ensures Child(p, i) <= q <==> p <= q && |p| < |q| && q[|p|] == i
    {
      ChildPrefix(p, i, q);
    }
  }

  lemma BelowAll(t: Tree, p: Path)
    requires Closed(t) && p in t
    ensures BelowTo(t, p, ENTRIES) == Below(t, p) - {p}
    ensures BelowTo(t, p, 0) == {}
  {
    forall q | q in t && p <= q && q != p
      ensures |p| < |q| && q[|p|] < ENTRIES
    {
      assert PathOk(q);
    }
  }

  lemma BelowMissing(t: Tree, p: Path)
    requires Closed(t) && p !in t
    ensures Below(t, p) == {}
  {
    forall q | q in t
      ensures !(p <= q)
    {
      AncestorsIn(t, p, q);
    }
  }

  lemma BelowLeaf(t: Tree, p: Path)
    requires Closed(t) && p in t && |p| == 4
    ensures Below(t, p) == {p}
  {
    forall q | q in t && p <= q
      ensures q == p
    {
      assert PathOk(q);
    }
  }

  /** The entry of a table tells whether the tree has the child, as `dealloc_user` reads it. */
  lemma DeallocEntry(mem: Mem, t: Tree, p: Path, i: nat)
    requires Wf(mem, t) && p in t && |p| < 4 && i < ENTRIES && (|p| == 0 ==> i == 0)
    ensures t[p] in mem
    ensures var e := At(mem, t[p], i);
            (e.flags.present && !(1 <= |p| <= 2 && e.flags.huge) <==> Child(p, i) in t)
            && (Child(p, i) in t ==> t[Child(p, i)] == e.frame)
  {
    assert NodeOk(mem, t, p);
    assert SlotOk(At(mem, t[p], i), t, p, i);
  }

  /** The frames `dealloc_user` gives back: the PML4 and everything under its slot 0. */
  ghost function Slot0(t: Tree): set<Path> {
    Below(t, [0]) + {[]}
  }

  /** Exactly those frames are back on the stack; the rest of the space is allocated for ever. */
  ghost predicate Reclaimed(s: Snap, s': Snap, root: Frame) {
    && root in s.spaces
    && s'.spaces == s.spaces - {root} && s'.mem == s.mem && s'.pool == s.pool && s'.kernelSlots == s.kernelSlots
    && |s'.free| == |s.free| + 1 + |Below(s.spaces[root], [0])|
    && (forall f :: f in s'.free <==> f in s.free || f in Frames(s.spaces[root], Slot0(s.spaces[root])))
    && (forall p | p in s.spaces[root] && p !in Slot0(s.spaces[root]) :: Loose(s', s.spaces[root][p]))
    && (forall r | r in s'.spaces :: FlatOf(s', r) == FlatOf(s, r))
  }

  lemma ReclaimedFrom(s: Snap, s1: Snap, s2: Snap, root: Frame)
    requires Inv(s) && root in s.spaces && s1 == DropSpace(s, root)
    requires Returned(s1, s2, s.spaces[root], Slot0(s.spaces[root]))
    ensures Reclaimed(s, s2, root)
  {
    hide Inv, FlatOf, Loose, Below;
    var t := s.spaces[root];
    DropSpaceKeeps(s, root);
    InvInjective(s, root);
    assert [] !in Below(t, [0]) by { BelowProper(t); }
    var rest := (set p | p in t) - Slot0(t);
    StillLoose(s1, s2, t, Slot0(t), rest);
    forall r | r in s2.spaces
      ensures FlatOf(s2, r) == FlatOf(s, r)
    {
      SameFlat(s1, s2, r);
    }
  }

  lemma BelowProper(t: Tree)
    ensures [] !in Below(t, [0])
  {
  }

  lemma SameFlat(s: Snap, s': Snap, r: Frame)
    requires s'.mem == s.mem && s'.spaces == s.spaces
    ensures FlatOf(s', r) == FlatOf(s, r)
  {
  }
}
