/** What a partial deep copy of an address space has achieved, and how partial copies compose. */
module Fork {
  import opened Ownership
  import opened Paging
  import opened Spaces
  import opened VirtualMemory

  /** The pages of `flat` below node `p`. */
  ghost function Region(flat: map<Path, Entry>, p: Path): set<Path> {
    set q | q in flat && p <= q
  }

  /** The pages below entries 0 .. i of node `p`. */
  ghost function RegionTo(flat: map<Path, Entry>, p: Path, i: nat): set<Path> {
    set q | q in flat && p <= q && |p| < |q| && q[|p|] < i
  }

  /** `q` is mapped in `dst` on its own frame, with the flags and contents it has in `src`. */
  ghost predicate PageCopied(s: Snap, src: Frame, dst: Frame, q: Path) {
    && q in FlatOf(s, src) && q in FlatOf(s, dst)
    && FlatOf(s, dst)[q].flags == FlatOf(s, src)[q].flags
    && FlatOf(s, dst)[q].frame in s.mem && FlatOf(s, src)[q].frame in s.mem
    && s.mem[FlatOf(s, dst)[q].frame] == s.mem[FlatOf(s, src)[q].frame]
  }

  predicate Selected(flat: map<Path, Entry>, region: set<Path>, q: Path) {
    q in region && q in flat && flat[q].flags.user
  }

  /** From `s` to `s'`, exactly the user pages of `region` were copied from `src` into `dst`. */
  ghost predicate Cloned(s: Snap, s': Snap, src: Frame, dst: Frame, region: set<Path>) {
    && Grows(s, s', dst, {})
    && FlatOf(s', src) == FlatOf(s, src)
    && (forall q | q in FlatOf(s, dst) :: q in FlatOf(s', dst) && FlatOf(s', dst)[q] == FlatOf(s, dst)[q])
    && (forall q | q in FlatOf(s', dst) :: q in FlatOf(s, dst) || Selected(FlatOf(s, src), region, q))
    && (forall q | Selected(FlatOf(s, src), region, q) :: PageCopied(s', src, dst, q))
  }

  /** Mapping into `dst` does not show in any other space. */
  lemma OtherSpace(s: Snap, s': Snap, src: Frame, dst: Frame, extra: set<Frame>)
    requires Inv(s) && Grows(s, s', dst, extra) && src in s.spaces && src != dst
    ensures src in s'.spaces && s'.spaces[src] == s.spaces[src]
    ensures FlatOf(s', src) == FlatOf(s, src)
    ensures forall p | p in s.spaces[src] ::
              s.spaces[src][p] in s.mem && s.spaces[src][p] in s'.mem && s'.mem[s.spaces[src][p]] == s.mem[s.spaces[src][p]]
  {
    hide Inv, FlatOf, NodeOk;
    forall p | p in s.spaces[src]
      ensures s.spaces[src][p] in s.mem && s.spaces[src][p] in s'.mem
      ensures s'.mem[s.spaces[src][p]] == s.mem[s.spaces[src][p]]
    {
      NodeFrame(s, src, p);
    }
    LiveWf(s, src);
    WfKept(s, s', src);
  }

  lemma WfKept(s: Snap, s': Snap, src: Frame)
    requires src in s.spaces && src in s'.spaces && s'.spaces[src] == s.spaces[src]
    requires Placed(s.mem, s.spaces[src])
    requires forall p | p in s.spaces[src] ::
               s.spaces[src][p] in s.mem && s.spaces[src][p] in s'.mem && s'.mem[s.spaces[src][p]] == s.mem[s.spaces[src][p]]
    ensures FlatOf(s', src) == FlatOf(s, src)
  {
    var t := s.spaces[src];
    assert Placed(s'.mem, t);
    forall p | p in t && |p| == 4
      ensures Leaf(s'.mem, t, p) == Leaf(s.mem, t, p)
    {
      assert Parent(p) in t;
    }
  }

  lemma PageCopiedKept(s: Snap, s': Snap, src: Frame, dst: Frame, q: Path)
    requires Inv(s) && src in s.spaces && dst in s.spaces && src != dst
    requires Grows(s, s', dst, {}) && PageCopied(s, src, dst, q)
    requires FlatOf(s', src) == FlatOf(s, src)
    requires q in FlatOf(s', dst) && FlatOf(s', dst)[q] == FlatOf(s, dst)[q]
    ensures PageCopied(s', src, dst, q)
  {
    hide Inv, FlatOf;
    FlatLength(s, src, q);
    FlatPages(s, src, q);
    FlatPages(s, dst, q);
  }

  lemma FlatLength(s: Snap, r: Frame, q: Path)
    requires q in FlatOf(s, r)
    ensures |q| == 4
  {
  }

  /** Two partial copies in a row copy the union of their regions. */
  lemma ClonedTrans(s: Snap, s1: Snap, s2: Snap, src: Frame, dst: Frame, a: set<Path>, b: set<Path>)
    requires Inv(s) && Inv(s1) && src in s.spaces && dst in s.spaces && src != dst
    requires Cloned(s, s1, src, dst, a) && Cloned(s1, s2, src, dst, b)
    ensures Cloned(s, s2, src, dst, a + b)
  {
    hide Inv, Grows, FlatOf, PageCopied;
    GrowsSame(s, s1, dst, {});
    GrowsTrans(s, s1, s2, dst, {});
    forall q | Selected(FlatOf(s, src), a + b, q)
      ensures PageCopied(s2, src, dst, q)
    {
      if q in b {
        assert Selected(FlatOf(s1, src), b, q);
      } else {
        assert Selected(FlatOf(s, src), a, q);
        assert PageCopied(s1, src, dst, q);
        CopiedInBoth(s1, src, dst, q);
        PageCopiedKept(s1, s2, src, dst, q);
      }
    }
  }

  lemma CopiedInBoth(s: Snap, src: Frame, dst: Frame, q: Path)
    requires PageCopied(s, src, dst, q)
    ensures q in FlatOf(s, src) && q in FlatOf(s, dst)
  {
  }

  lemma ClonedNothing(s: Snap, src: Frame, dst: Frame, region: set<Path>)
    requires forall q | q in region && q in FlatOf(s, src) :: !FlatOf(s, src)[q].flags.user
    ensures Cloned(s, s, src, dst, region)
  {
    hide FlatOf, Grows;
    GrowsRefl(s, dst);
  }

  /** Mapping a page and copying its contents copies the region holding just that page. */
  lemma ClonedPage(s: Snap, s1: Snap, s2: Snap, src: Frame, dst: Frame, q: Path)
    requires Inv(s) && Inv(s1) && src in s.spaces && dst in s.spaces && src != dst
    requires q in FlatOf(s, src) && FlatOf(s, src)[q].flags.user && q !in FlatOf(s, dst)
    requires Grows(s, s1, dst, {})
    requires q in FlatOf(s1, dst) && FlatOf(s1, dst)[q].flags == FlatOf(s, src)[q].flags
    requires FlatOf(s1, dst) == FlatOf(s, dst)[q := FlatOf(s1, dst)[q]]
    requires FlatOf(s1, dst)[q].frame in s.free
    requires FlatOf(s, src)[q].frame in s.mem
    requires s2 == s1.(mem := s1.mem[FlatOf(s1, dst)[q].frame := s.mem[FlatOf(s, src)[q].frame]])
    ensures Inv(s2) && Cloned(s, s2, src, dst, {q})
  {
    hide Inv, Grows, FlatOf;
    var f, g := FlatOf(s1, dst)[q].frame, FlatOf(s, src)[q].frame;
    FlatLength(s, src, q);
    FlatPages(s, src, q);
    GrowsSame(s, s1, dst, {});
    FlatPages(s1, dst, q);
    WritePageKeeps(s1, f, s.mem[g]);
    OtherSpace(s, s1, src, dst, {});
    GrowsCopy(s, s1, dst, f, s.mem[g]);
    assert g == s.spaces[src][q] && s1.mem[g] == s.mem[g] && f != g;
    assert FlatOf(s2, src) == FlatOf(s, src) && FlatOf(s2, dst) == FlatOf(s1, dst);
    assert PageCopied(s2, src, dst, q);
  }

  lemma GrowsCopy(s: Snap, s1: Snap, dst: Frame, f: Frame, c: FrameContent)
    requires Inv(s) && dst in s.spaces && Grows(s, s1, dst, {}) && f in s.free && f in s1.mem
    ensures Grows(s, s1.(mem := s1.mem[f := c]), dst, {})
  {
    hide Inv, SameKernel;
    RootFrame(s, dst);
    NodeFrame(s, dst, []);
    FrameSlots(s.mem, s1.mem, f, c, dst, s.kernelSlots);
    GrowsWrite(s, s1, dst, f, c);
  }

  lemma GrowsWrite(s: Snap, s1: Snap, dst: Frame, f: Frame, c: FrameContent)
    requires Grows(s, s1, dst, {}) && f in s.free && f in s1.mem && f != dst
    requires SameKernel(s.mem, dst, s1.mem[f := c], dst, s.kernelSlots)
    ensures Grows(s, s1.(mem := s1.mem[f := c]), dst, {})
  {
    hide SameKernel;
  }

  lemma ChildPrefix(p: Path, i: nat, q: Path)
    ensures Child(p, i) <= q <==> p <= q && |p| < |q| && q[|p|] == i
  {
    if Child(p, i) <= q {
      assert q[..|p|] == Child(p, i)[..|p|] == p;
      assert q[|p|] == Child(p, i)[|p|];
    }
  }

  /** Growing a region one entry at a time. */
  lemma RegionStep(flat: map<Path, Entry>, p: Path, i: nat)
    ensures RegionTo(flat, p, i + 1) == RegionTo(flat, p, i) + Region(flat, Child(p, i))
  {
    forall q | q in flat
      ensures Child(p, i) <= q <==> p <= q && |p| < |q| && q[|p|] == i
    {
      ChildPrefix(p, i, q);
    }
  }

  lemma RegionWhole(s: Snap, r: Frame, p: Path)
    requires Inv(s) && r in s.spaces && |p| < 4
    ensures RegionTo(FlatOf(s, r), p, ENTRIES) == Region(FlatOf(s, r), p)
    ensures RegionTo(FlatOf(s, r), p, 0) == {}
  {
    LiveWf(s, r);
    hide SpacesOk, OwnersOk, FreeOk;
  }

  /** No huge page at entries 0 .. i of node `p`, nor anywhere below them. */
  ghost predicate PlainTo(s: Snap, r: Frame, p: Path, i: nat) {
    && r in s.spaces && p in s.spaces[r] && s.spaces[r][p] in s.mem
    && (|p| < 3 ==> forall j: nat | j < i && j < ENTRIES :: NotHuge(|p|, At(s.mem, s.spaces[r][p], j)))
    && forall j: nat | j < i :: Plain(s, r, Child(p, j))
  }

  predicate NotHuge(depth: nat, e: Entry) {
    e.flags.present && (depth == 0 ==> e.flags.user) ==> !e.flags.huge
  }

  lemma PlainWhole(s: Snap, r: Frame, p: Path)
    requires Inv(s) && PlainTo(s, r, p, ENTRIES)
    ensures Plain(s, r, p)
  {
    LiveWf(s, r);
    hide SpacesOk, OwnersOk, FreeOk, NodeOk;
    forall q | q in s.spaces[r] && p <= q && |q| < 3
      ensures s.spaces[r][q] in s.mem && NoHuge(|q|, s.mem[s.spaces[r][q]])
    {
      if q == p {
        forall i: nat | i < ENTRIES
          ensures var e := s.mem[s.spaces[r][q]][i];
                  e.flags.present && (|q| == 0 ==> e.flags.user) ==> !e.flags.huge
        {
          assert NotHuge(|p|, At(s.mem, s.spaces[r][p], i));
        }
      } else {
        assert PathOk(q);
        var j := q[|p|];
        assert Plain(s, r, Child(p, j));
        assert Child(p, j) <= q;
      }
    }
  }

  lemma PlainDeep(s: Snap, r: Frame, p: Path)
    requires r in s.spaces && |p| >= 3
    ensures Plain(s, r, p)
  {
  }

  /** Copying into `dst` cannot bring huge pages into `src`. */
  lemma PlainKept(s: Snap, s': Snap, src: Frame, dst: Frame, p: Path)
    requires Inv(s) && src in s.spaces && src != dst && Grows(s, s', dst, {})
    ensures Plain(s, src, p) ==> Plain(s', src, p)
  {
    hide Inv, Grows, FlatOf, NoHuge;
    OtherSpace(s, s', src, dst, {});
  }

  /** New spaces elsewhere bring no huge page into `r`. */
  lemma PlainUntouched(s: Snap, s': Snap, r: Frame)
    requires Inv(s) && Untouched(s, s') && r in s.spaces
    ensures Plain(s, r, []) ==> Plain(s', r, [])
  {
    hide Inv, FlatOf, NoHuge;
    forall q | q in s.spaces[r]
      ensures s.spaces[r][q] in s'.mem && s'.mem[s.spaces[r][q]] == s.mem[s.spaces[r][q]]
    {
      NodeFrame(s, r, q);
      OwnedNotFree(s, s.spaces[r][q]);
    }
  }

  lemma OwnedNotFree(s: Snap, f: Frame)
    requires Inv(s) && f in s.owner
    ensures f !in s.free && f in s.mem
  {
    hide SpacesOk;
  }

  lemma PlainToNone(s: Snap, r: Frame, p: Path)
    requires r in s.spaces && p in s.spaces[r] && s.spaces[r][p] in s.mem
    ensures PlainTo(s, r, p, 0)
  {
  }

  lemma PlainToNext(s: Snap, r: Frame, p: Path, i: nat)
    requires PlainTo(s, r, p, i) && i < ENTRIES && PlainEntry(s, r, p, i)
    ensures PlainTo(s, r, p, i + 1)
  {
    hide Plain, NotHuge;
  }

  lemma PlainToKept(s: Snap, s': Snap, src: Frame, dst: Frame, p: Path, i: nat)
    requires Inv(s) && src in s.spaces && src != dst && Grows(s, s', dst, {})
    requires PlainTo(s, src, p, i)
    ensures PlainTo(s', src, p, i)
  {
    hide Inv, Grows, FlatOf, Plain, NotHuge;
    OtherSpace(s, s', src, dst, {});
    forall j: nat | j < i
      ensures Plain(s', src, Child(p, j))
    {
      assert Plain(s, src, Child(p, j));
      PlainKept(s, s', src, dst, Child(p, j));
    }
    forall j: nat | |p| < 3 && j < i && j < ENTRIES
      ensures NotHuge(|p|, At(s'.mem, s'.spaces[src][p], j))
    {
      assert NotHuge(|p|, At(s.mem, s.spaces[src][p], j));
    }
  }

  /** An entry that leads nowhere has no pages and no huge pages below it. */
  lemma NothingBelow(s: Snap, r: Frame, p: Path)
    requires Inv(s) && r in s.spaces && p !in s.spaces[r]
    ensures forall q | q in s.spaces[r] :: !(p <= q)
    ensures Region(FlatOf(s, r), p) == {}
    ensures Plain(s, r, p)
  {
    LiveWf(s, r);
    hide SpacesOk, OwnersOk, FreeOk, NodeOk;
    forall q | q in s.spaces[r]
      ensures !(p <= q)
    {
      AncestorsIn(s.spaces[r], p, q);
    }
  }

  lemma {:induction false} AncestorsIn(t: Tree, p: Path, q: Path)
    requires Closed(t) && q in t
    ensures p <= q ==> p in t
    decreases |q|
  {
    if p <= q && p != q {
      assert p <= Parent(q);
      AncestorsIn(t, p, Parent(q));
    }
  }

  /** User nodes never sit under a kernel slot. */
  lemma SlotsAreUser(s: Snap, r: Frame, q: Path)
    requires Inv(s) && r in s.spaces && q in s.spaces[r] && |q| > 0
    ensures PathOk(q) && q[0] !in s.kernelSlots
  {
    LiveWf(s, r);
    RootFrame(s, r);
    hide SpacesOk, OwnersOk, FreeOk;
    var t := s.spaces[r];
    AncestorsIn(t, [q[0]], q);
    assert Child([], q[0]) == [q[0]];
    assert PathOk(q);
    assert NodeOk(s.mem, t, []);
    assert SlotOk(At(s.mem, r, q[0]), t, [], q[0]);
  }

  /** The leaf entry found by the walk is the one in the flat view. */
  lemma LeafEntry(s: Snap, r: Frame, p: Path, i: nat)
    requires Inv(s) && r in s.spaces && p in s.spaces[r] && |p| == 3 && i < ENTRIES
    ensures s.spaces[r][p] in s.mem
    ensures var e := At(s.mem, s.spaces[r][p], i);
            && (Child(p, i) in FlatOf(s, r) <==> e.flags.present)
            && (e.flags.present ==> FlatOf(s, r)[Child(p, i)] == e)
    ensures forall q | q in FlatOf(s, r) && Child(p, i) <= q :: q == Child(p, i)
  {
    LiveWf(s, r);
    NodeFrame(s, r, p);
    hide SpacesOk, OwnersOk, FreeOk;
    assert Parent(Child(p, i)) == p;
    assert NodeOk(s.mem, s.spaces[r], p);
    assert SlotOk(At(s.mem, s.spaces[r][p], i), s.spaces[r], p, i);
  }

  /** An entry of an upper table that is not a link, seen by `clone_user_space`. */
  lemma UpperEntry(s: Snap, r: Frame, p: Path, i: nat)
    requires Inv(s) && r in s.spaces && p in s.spaces[r] && |p| < 3 && i < ENTRIES
    ensures s.spaces[r][p] in s.mem
    ensures var e := At(s.mem, s.spaces[r][p], i);
            && (!e.flags.present || (|p| == 0 && !e.flags.user) ==> Child(p, i) !in s.spaces[r])
            && (e.flags.present && (|p| == 0 ==> e.flags.user) && !e.flags.huge ==>
                  Child(p, i) in s.spaces[r] && s.spaces[r][Child(p, i)] == e.frame)
  {
    LiveWf(s, r);
    NodeFrame(s, r, p);
    hide SpacesOk, OwnersOk, FreeOk;
    assert NodeOk(s.mem, s.spaces[r], p);
    assert SlotOk(At(s.mem, s.spaces[r][p], i), s.spaces[r], p, i);
  }

  /** What one loop iteration learns about huge pages. */
  ghost predicate PlainEntry(s: Snap, r: Frame, p: Path, i: nat) {
    && Plain(s, r, Child(p, i))
    && r in s.spaces && p in s.spaces[r] && s.spaces[r][p] in s.mem && i < ENTRIES
    && (|p| < 3 ==> NotHuge(|p|, At(s.mem, s.spaces[r][p], i)))
  }

  lemma ClonedGrows(s: Snap, s': Snap, src: Frame, dst: Frame, region: set<Path>)
    requires Cloned(s, s', src, dst, region)
    ensures Grows(s, s', dst, {})
  {
  }

  lemma ClonedFlat(s: Snap, s': Snap, src: Frame, dst: Frame, region: set<Path>)
    requires Cloned(s, s', src, dst, region)
    ensures Grows(s, s', dst, {}) && FlatOf(s', src) == FlatOf(s, src)
  {
  }

  /** One more entry is copied. */
  lemma CloneStep(s: Snap, s1: Snap, s2: Snap, src: Frame, dst: Frame, p: Path, i: nat)
    requires Inv(s) && Inv(s1) && src in s.spaces && dst in s.spaces && src != dst && i < ENTRIES
    requires Cloned(s, s1, src, dst, RegionTo(FlatOf(s, src), p, i)) && PlainTo(s1, src, p, i)
    requires Cloned(s1, s2, src, dst, Region(FlatOf(s, src), Child(p, i))) && PlainEntry(s2, src, p, i)
    ensures Cloned(s, s2, src, dst, RegionTo(FlatOf(s, src), p, i + 1)) && PlainTo(s2, src, p, i + 1)
    ensures s2.spaces.Keys == s.spaces.Keys && s2.spaces[src] == s1.spaces[src]
  {
    hide Inv, Grows, FlatOf, Cloned, Plain, Region, RegionTo, PlainTo, PlainEntry;
    var flat := FlatOf(s, src);
    ClonedFlat(s, s1, src, dst, RegionTo(flat, p, i));
    ClonedFlat(s1, s2, src, dst, Region(flat, Child(p, i)));
    GrowsSame(s, s1, dst, {});
    GrowsSame(s1, s2, dst, {});
    ClonedTrans(s, s1, s2, src, dst, RegionTo(flat, p, i), Region(flat, Child(p, i)));
    RegionStep(flat, p, i);
    OtherSpace(s1, s2, src, dst, {});
    PlainToKept(s1, s2, src, dst, p, i);
    PlainToNext(s2, src, p, i);
  }

  /** Entries are visited in order: nothing below the next one has been copied yet. */
  lemma NoneAhead(s: Snap, s': Snap, src: Frame, dst: Frame, p: Path, i: nat)
    requires Cloned(s, s', src, dst, RegionTo(FlatOf(s, src), p, i))
    requires forall q | q in FlatOf(s, dst) :: !(p <= q)
    ensures forall q | q in FlatOf(s', dst) :: !(Child(p, i) <= q)
  {
    hide FlatOf, Grows;
    forall q | q in FlatOf(s', dst)
      ensures !(Child(p, i) <= q)
    {
      ChildPrefix(p, i, q);
    }
  }

  /** The promise of `fork`: `child` is a new space holding a private copy of every user page of `src`. */
  ghost predicate Forked(s: Snap, s': Snap, src: Frame, child: Frame) {
    && child !in s.spaces && s'.spaces.Keys == s.spaces.Keys + {child}
    && Untouched(s, s')
    && (forall q :: q in FlatOf(s', child) <==> q in FlatOf(s, src) && FlatOf(s, src)[q].flags.user)
    && (forall q | q in FlatOf(s', child) :: PageCopied(s', src, child, q))
    && Plain(s', src, []) && Plain(s', child, [])
  }

  lemma ForkedFromClone(s: Snap, s1: Snap, s2: Snap, src: Frame, child: Frame)
    requires Inv(s) && Inv(s1) && src in s.spaces && child !in s.spaces && child in s.free
    requires Untouched(s, s1) && s1.spaces == s.spaces[child := EmptyTree(child)] && FlatOf(s1, child) == map[]
    requires Cloned(s1, s2, src, child, Region(FlatOf(s1, src), []))
    requires Plain(s2, src, []) && Plain(s2, child, [])
    ensures Forked(s, s2, src, child)
  {
    hide Inv, FlatOf, Untouched, PageCopied, Plain, Grows;
    UntouchedGrows(s, s1, s2, child);
    GrowsSame(s1, s2, child, {});
    UntouchedFlat(s, s1, src);
    forall q
      ensures q in FlatOf(s2, child) <==> q in FlatOf(s, src) && FlatOf(s, src)[q].flags.user
    {
      assert [] <= q;
      if q in FlatOf(s, src) && FlatOf(s, src)[q].flags.user {
        assert Selected(FlatOf(s1, src), Region(FlatOf(s1, src), []), q);
        CopiedInBoth(s2, src, child, q);
      }
    }
  }

  lemma UntouchedFlat(s: Snap, s': Snap, r: Frame)
    requires Untouched(s, s') && r in s.spaces
    ensures r in s'.spaces && s'.spaces[r] == s.spaces[r] && FlatOf(s', r) == FlatOf(s, r)
  {
  }

  lemma UntouchedGrows(s: Snap, s1: Snap, s2: Snap, child: Frame)
    requires Inv(s1) && Untouched(s, s1) && child !in s.spaces && child in s.free
    requires s1.spaces == s.spaces[child := EmptyTree(child)]
    requires Grows(s1, s2, child, {})
    ensures Untouched(s, s2)
  {
    hide FlatOf, SpacesOk, FreeOk;
    PrefixElements(s.free, s1.free);
    forall r | r in s.spaces
      ensures r in s2.spaces && s2.spaces[r] == s.spaces[r] && FlatOf(s2, r) == FlatOf(s, r)
    {
      OtherSpace(s1, s2, r, child, {});
    }
    forall f | f in s.mem && f !in s.free
      ensures s2.mem[f] == s.mem[f]
    {
      assert !IsTableOf(s1, f, child);
    }
  }
}
