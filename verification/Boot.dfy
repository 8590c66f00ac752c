/** Building the free stack from the bootloader's memory map. */
module Boot {
  import opened Ownership
  import opened Paging
  import opened Spaces

  datatype MemoryRegion = MemoryRegion(usable: bool, start: nat, end: nat)

  /** Frame `f` lies wholly inside a usable region. */
  predicate FrameIn(r: MemoryRegion, f: Frame) {
    r.usable && r.start <= PAGE_SIZE * f && PAGE_SIZE * f + PAGE_SIZE <= r.end
  }

  /** The bootloader's promise: regions do not overlap. */
  predicate RegionsDisjoint(regions: seq<MemoryRegion>) {
    forall i, j | 0 <= i < j < |regions| :: regions[i].end <= regions[j].start || regions[j].end <= regions[i].start
  }

  /** Every pushed frame, with the region it came from; region `k` has been pushed up to frame `bound`. */
  ghost predicate Pushed(regions: seq<MemoryRegion>, free: seq<Frame>, origin: seq<nat>, k: nat, bound: Frame) {
    && k <= |regions| && |origin| == |free|
    && (forall i | 0 <= i < |free| ::
          && origin[i] <= k && origin[i] < |regions| && FrameIn(regions[origin[i]], free[i])
          && (origin[i] == k ==> free[i] < bound))
    && (forall i, j | 0 <= i < j < |free| :: free[i] != free[j])
  }

  ghost predicate AllPushed(regions: seq<MemoryRegion>, free: seq<Frame>, k: nat, bound: Frame) {
    && k <= |regions|
    && (forall i, f: Frame | 0 <= i < k && FrameIn(regions[i], f) :: f in free)
    && (k < |regions| ==> forall f: Frame | FrameIn(regions[k], f) && f < bound :: f in free)
  }

  lemma StartRegion(regions: seq<MemoryRegion>, free: seq<Frame>, origin: seq<nat>, k: nat, bound: Frame)
    requires Pushed(regions, free, origin, k, 0) && k < |regions|
    requires PAGE_SIZE * bound < regions[k].start + PAGE_SIZE
    ensures Pushed(regions, free, origin, k, bound)
    ensures AllPushed(regions, free, k, 0) ==> AllPushed(regions, free, k, bound)
  {
  }

  /** A new frame of region `k` differs from all earlier ones. */
  lemma PushOne(regions: seq<MemoryRegion>, free: seq<Frame>, origin: seq<nat>, k: nat, f: Frame)
    requires RegionsDisjoint(regions) && k < |regions| && FrameIn(regions[k], f)
    requires Pushed(regions, free, origin, k, f) && AllPushed(regions, free, k, f)
    ensures Pushed(regions, free + [f], origin + [k], k, f + 1)
    ensures AllPushed(regions, free + [f], k, f + 1)
  {
    forall i | 0 <= i < |free|
      ensures free[i] != f
    {
      var j := origin[i];
      if j != k {
        assert regions[j].end <= regions[k].start || regions[k].end <= regions[j].start;
      }
    }
    forall g: Frame | FrameIn(regions[k], g) && g < f + 1
      ensures g in free + [f]
    {
      if g == f { assert (free + [f])[|free|] == g; }
    }
  }

  lemma EndRegion(regions: seq<MemoryRegion>, free: seq<Frame>, origin: seq<nat>, k: nat, bound: Frame)
    requires k < |regions| && Pushed(regions, free, origin, k, bound)
    ensures Pushed(regions, free, origin, k + 1, 0)
    ensures AllPushed(regions, free, k, bound) && PAGE_SIZE * bound + PAGE_SIZE > regions[k].end ==>
              AllPushed(regions, free, k + 1, 0)
  {
  }

  lemma SkipRegion(regions: seq<MemoryRegion>, free: seq<Frame>, origin: seq<nat>, k: nat)
    requires k < |regions| && !regions[k].usable && Pushed(regions, free, origin, k, 0)
    ensures Pushed(regions, free, origin, k + 1, 0)
    ensures AllPushed(regions, free, k, 0) ==> AllPushed(regions, free, k + 1, 0)
  {
  }

  /** A machine with no address space yet satisfies the ownership invariant. */
  lemma BootInv(ram: Mem, free: seq<Frame>, slots: set<nat>)
    requires |free| <= MAX_FRAMES && 0 !in slots
    requires forall i | 0 <= i < |free| :: free[i] in ram
    requires forall i, j | 0 <= i < j < |free| :: free[i] != free[j]
    ensures Inv(Snap(ram, map[], map[], free, Elements(free), slots))
  {
    SetOfSeq(free);
  }

  ghost function Elements(free: seq<Frame>): set<Frame> {
    set f | f in free
  }

  lemma {:induction false} SetOfSeq(free: seq<Frame>)
    ensures |Elements(free)| <= |free|
  {
    if free != [] {
      var rest := free[..|free| - 1];
      SetOfSeq(rest);
      assert Elements(free) == Elements(rest) + {free[|free| - 1]};
    }
  }
}
