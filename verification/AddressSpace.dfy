/** The frame allocator and the address-space operations, over simulated physical memory. */
module AddressSpace {
  import opened Boot
  import opened Fork
  import opened Ownership
  import opened Paging
  import opened Reclaim
  import opened Spaces
  import opened VirtualMemory
  import opened Wrappers

  /** Table entries get the present, writable and user bits of the page being mapped. */
  function ParentFlags(f: Flags): Flags {
    NO_FLAGS.(present := f.present, writable := f.writable, user := f.user)
  }

  function AddFlags(f: Flags, g: Flags): Flags {
    f.(present := f.present || g.present, writable := f.writable || g.writable, user := f.user || g.user)
  }

  lemma ParentIsUser(f: Flags)
    requires f.present && f.user
    ensures ParentFlags(f).present && ParentFlags(f).user && !ParentFlags(f).huge
  {
  }

  /** An entry that gives the rights of `e` to the node below it. */
  lemma LinkPermits(mem: Mem, t: Tree, p: Path, i: nat, e: Entry)
    requires p in t && t[p] in mem && i < ENTRIES && Allows(At(mem, t[p], i), e)
    ensures Permits(mem, t, Child(p, i), e)
  {
    forall q: Path, a: nat | Child(p, i) == Child(q, a)
      ensures q == p && a == i
    {
      ChildInjective(p, i, q, a);
    }
  }

  /** No entry leads to the root table. */
  lemma NothingAbove(mem: Mem, t: Tree, e: Entry)
    ensures Permits(mem, t, [], e)
  {
    forall p: Path, i: nat
      ensures Child(p, i) != []
    {
      ChildParent(p, i);
    }
  }

  lemma PermitsLess(mem: Mem, t: Tree, p: Path, e: Entry, e': Entry)
    requires Permits(mem, t, p, e) && Allows(e, e')
    ensures Permits(mem, t, p, e')
  {
  }

  /** A popped frame is in no table. */
  lemma PermitsPopped(s: Snap, root: Frame, f: Frame, p: Path, e: Entry)
    requires Inv(s) && root in s.spaces && Permits(s.mem, s.spaces[root], p, e) && f in s.free
    ensures Permits(s.mem[f := ZeroFrame()], s.spaces[root], p, e)
  {
    hide Inv;
    var t := s.spaces[root];
    forall q: Path, a: nat | p == Child(q, a) && q in t && t[q] in s.mem[f := ZeroFrame()] && a < ENTRIES
      ensures Allows(At(s.mem[f := ZeroFrame()], t[q], a), e)
    {
      NodeFrame(s, root, q);
    }
  }

  /** The rights an entry has, and those it gets, are allowed by the entry above it. */
  lemma UnionPermits(s: Snap, root: Frame, p: Path, i: nat, flags: Flags, link: Entry)
    requires Inv(s) && root in s.spaces && p in s.spaces[root] && s.spaces[root][p] in s.mem && i < ENTRIES
    requires |p| < 4 && Child(p, i) in s.spaces[root]
    requires Permits(s.mem, s.spaces[root], p, Entry(flags, 0))
    requires link.flags == AddFlags(At(s.mem, s.spaces[root][p], i).flags, flags)
    ensures Permits(s.mem, s.spaces[root], p, link) && Allows(link, At(s.mem, s.spaces[root][p], i))
    ensures Allows(link, Entry(flags, 0))
  {
    LiveWf(s, root);
    hide Inv;
    var t := s.spaces[root];
    forall q: Path, a: nat | p == Child(q, a) && q in t && t[q] in s.mem && a < ENTRIES
      ensures Allows(At(s.mem, t[q], a), link)
    {
      assert Allows(At(s.mem, t[q], a), At(s.mem, t[Child(q, a)], i));
    }
  }

  /** Hanging a frame just popped from the free stack needs no frame from elsewhere. */
  lemma PopThenHang(s: Snap, s1: Snap, s2: Snap, root: Frame, f: Frame)
    requires Grows(s, s1, root, {}) && Grows(s1, s2, root, {f}) && f in s.free
    ensures Grows(s, s2, root, {})
  {
    GrowsTrans(s, s1, s2, root, {f});
  }

  /** A used entry outside the kernel slots is a link or a huge page. */
  lemma UsedIsLink(s: Snap, root: Frame, p: Path, i: nat)
    requires Inv(s) && root in s.spaces && p in s.spaces[root] && |p| < 3 && i < ENTRIES
    requires |p| == 0 ==> i !in s.kernelSlots
    requires At(s.mem, s.spaces[root][p], i) != UNUSED
    requires !At(s.mem, s.spaces[root][p], i).flags.huge
    ensures IsLink(|p|, At(s.mem, s.spaces[root][p], i))
    ensures Child(p, i) in s.spaces[root] && s.spaces[root][Child(p, i)] == At(s.mem, s.spaces[root][p], i).frame
  {
    var e := At(s.mem, s.spaces[root][p], i);
    assert NodeOk(s.mem, s.spaces[root], p);
    assert SlotOk(e, s.spaces[root], p, i);
    assert KernelView(s.mem, root, s.kernelSlots);
    assert |p| == 0 ==> s.spaces[root][p] == root;
  }

  /** A huge page outside the kernel slots is one the clone and the mapper run into. */
  lemma HugeNotPlain(s: Snap, root: Frame, p: Path, i: nat)
    requires Inv(s) && root in s.spaces && p in s.spaces[root] && |p| < 3 && i < ENTRIES
    requires |p| == 0 ==> i !in s.kernelSlots
    requires s.spaces[root][p] in s.mem && At(s.mem, s.spaces[root][p], i) != UNUSED && At(s.mem, s.spaces[root][p], i).flags.huge
    ensures !Plain(s, root, [])
  {
    var e := At(s.mem, s.spaces[root][p], i);
    assert NodeOk(s.mem, s.spaces[root], p);
    assert SlotOk(e, s.spaces[root], p, i);
    assert KernelView(s.mem, root, s.kernelSlots);
    assert |p| == 0 ==> s.spaces[root][p] == root;
    assert !NoHuge(|p|, s.mem[s.spaces[root][p]]);
    assert [] <= p;
  }

  lemma SourceHuge(s: Snap, root: Frame, p: Path, i: nat)
    requires Inv(s) && root in s.spaces && p in s.spaces[root] && |p| < 3 && i < ENTRIES && s.spaces[root][p] in s.mem
    requires var e := At(s.mem, s.spaces[root][p], i); e.flags.present && e.flags.huge && (|p| == 0 ==> e.flags.user)
    ensures !Plain(s, root, [])
  {
    hide Inv;
    assert !NoHuge(|p|, s.mem[s.spaces[root][p]]);
    assert [] <= p;
  }

  /** A used entry of a page table is a mapped page. */
  lemma UsedLeaf(s: Snap, root: Frame, p: Path, i: nat)
    requires Inv(s) && root in s.spaces && p in s.spaces[root] && |p| == 3 && i < ENTRIES
    requires s.spaces[root][p] in s.mem && At(s.mem, s.spaces[root][p], i) != UNUSED
    ensures Child(p, i) in FlatOf(s, root)
  {
    LiveWf(s, root);
    hide Inv;
    assert NodeOk(s.mem, s.spaces[root], p);
    assert SlotOk(At(s.mem, s.spaces[root][p], i), s.spaces[root], p, i);
  }

  /** The tree keeps its nodes, and on success has one at entry `i` of node `p`. */
  ghost predicate Hangs(s: Snap, s': Snap, root: Frame, p: Path, i: nat, r: Option<Frame>) {
    && root in s.spaces && root in s'.spaces
    && TreeKept(s.spaces[root], s'.spaces[root])
    && (r.Some? ==> Child(p, i) in s'.spaces[root] && s'.spaces[root][Child(p, i)] == r.value)
  }

  predicate IsKernelEntry(e: Entry) { e.flags.present && !e.flags.user }

  /** Slots 1 .. i of `f` hold the kernel entries of `active`; the other slots are unused. */
  ghost predicate KernelCopy(mem: Mem, mem': Mem, active: Frame, f: Frame, i: nat) {
    && active in mem && f in mem'
    && (forall j: nat | j < ENTRIES ::
          At(mem', f, j) == if 0 < j < i && IsKernelEntry(At(mem, active, j)) then At(mem, active, j) else UNUSED)
  }

  /** Writing a page leaves the tables alone. */
  lemma WritePlain(s: Snap, root: Frame, f: Frame, c: FrameContent)
    requires Inv(s) && root in s.spaces && f in s.mem
    requires f in s.owner && |s.owner[f].path| == 4
    ensures Plain(s, root, []) ==> Plain(s.(mem := s.mem[f := c]), root, [])
  {
    if Plain(s, root, []) {
      hide Inv, NoHuge;
      forall q | q in s.spaces[root] && |q| < 3
        ensures s.spaces[root][q] != f
      {
        NodeFrame(s, root, q);
      }
    }
  }

  class Machine {
    var mem: Mem
    var freeStack: array<Frame>
    var top: nat

    /** Memory and free stack again, with the owner of every allocated frame. */
    ghost var s: Snap

    ghost predicate Valid()
      reads this, freeStack
    {
      && top <= freeStack.Length == MAX_FRAMES
      && s.mem == mem && s.free == freeStack[..top]
      && Inv(s)
    }

    constructor (ram: Mem)
      ensures top == 0 && freeStack.Length == MAX_FRAMES && fresh(freeStack) && mem == ram
    {
      mem := ram;
      freeStack := new Frame[MAX_FRAMES];
      top := 0;
    }

    /** `BootInfoFrameAllocator::init`: push every whole frame of the usable regions, up to the capacity. */
    method Init(regions: seq<MemoryRegion>, ghost slots: set<nat>)
      requires top == 0 && freeStack.Length == MAX_FRAMES
      requires RegionsDisjoint(regions) && 0 !in slots
      requires forall k, f | 0 <= k < |regions| && FrameIn(regions[k], f) :: f in mem
      modifies this`top, this`s, freeStack
      ensures Valid() && s.spaces == map[] && s.kernelSlots == slots && s.pool == Elements(s.free)
      ensures forall f | f in s.free :: exists k | 0 <= k < |regions| :: FrameIn(regions[k], f)
      ensures top < MAX_FRAMES ==> forall k, f | 0 <= k < |regions| && FrameIn(regions[k], f) :: f in s.free
    {
      hide Inv, RegionsDisjoint;
      ghost var origin: seq<nat> := [];
      var k := 0;
      while k < |regions| && top < MAX_FRAMES
        invariant 0 <= k <= |regions| && top <= freeStack.Length == MAX_FRAMES
        invariant Pushed(regions, freeStack[..top], origin, k, 0)
        invariant top < MAX_FRAMES ==> AllPushed(regions, freeStack[..top], k, 0)
      {
        if regions[k].usable {
          origin := InitRegion(regions, k, origin);
        } else {
          SkipRegion(regions, freeStack[..top], origin, k);
        }
        k := k + 1;
      }
      ghost var free := freeStack[..top];
      BootInv(mem, free, slots);
      s := Snap(mem, map[], map[], free, Elements(free), slots);
      forall f | f in s.free
        ensures exists i | 0 <= i < |regions| :: FrameIn(regions[i], f)
      {
        var j :| 0 <= j < |free| && free[j] == f;
        assert FrameIn(regions[origin[j]], f);
      }
    }

    method InitRegion(regions: seq<MemoryRegion>, k: nat, ghost origin: seq<nat>) returns (ghost origin': seq<nat>)
      requires k < |regions| && regions[k].usable && RegionsDisjoint(regions)
      requires top < freeStack.Length == MAX_FRAMES
      requires Pushed(regions, freeStack[..top], origin, k, 0) && AllPushed(regions, freeStack[..top], k, 0)
      modifies this`top, freeStack
      ensures top <= freeStack.Length
      ensures Pushed(regions, freeStack[..top], origin', k + 1, 0)
      ensures top < MAX_FRAMES ==> AllPushed(regions, freeStack[..top], k + 1, 0)
    {
      hide Pushed, AllPushed, RegionsDisjoint;
      origin' := origin;
      var addr := (regions[k].start + 4095) / 4096 * 4096;
      StartRegion(regions, freeStack[..top], origin, k, addr / PAGE_SIZE);
      while addr + 4096 <= regions[k].end && top < MAX_FRAMES
        invariant addr % PAGE_SIZE == 0 && regions[k].start <= addr
        invariant top <= freeStack.Length == MAX_FRAMES
        invariant Pushed(regions, freeStack[..top], origin', k, addr / PAGE_SIZE)
        invariant AllPushed(regions, freeStack[..top], k, addr / PAGE_SIZE)
        decreases regions[k].end - addr
      {
        ghost var before := freeStack[..top];
        PushOne(regions, before, origin', k, addr / PAGE_SIZE);
        freeStack[top] := addr / PAGE_SIZE;
        top := top + 1;
        assert freeStack[..top] == before + [addr / PAGE_SIZE];
        origin' := origin' + [k];
        addr := addr + 4096;
      }
      EndRegion(regions, freeStack[..top], origin', k, addr / PAGE_SIZE);
    }

    /** `root` names the space the frame is for; only the specification looks at it. */
    method AllocateFrame(ghost root: Frame) returns (r: Option<Frame>)
      requires Valid()
      modifies this`mem, this`top, this`s
      ensures Valid()
      ensures r.None? <==> old(top) == 0
      ensures r.None? ==> s == old(s)
      ensures r.Some? ==>
                && r.value == old(s.free)[old(top) - 1]
                && s == old(s).(mem := old(mem)[r.value := ZeroFrame()], free := old(s.free)[..old(top) - 1])
                && Loose(s, r.value) && r.value in old(s.mem)
      ensures Grows(old(s), s, root, {}) && (Plain(old(s), root, []) ==> Plain(s, root, []))
      ensures forall q | q in s.spaces :: FlatOf(s, q) == old(FlatOf(s, q))
    {
      hide Inv, Grows, FlatOf, Plain, Loose;
      if top == 0 {
        GrowsRefl(s, root);
        return None;
      }
      PopKeeps(s, root);
      PopPlain(s, root);
      top := top - 1;
      var f := freeStack[top];
      mem := mem[f := ZeroFrame()];
      s := s.(mem := mem, free := s.free[..top]);
      r := Some(f);
    }

    method DeallocateFrame(f: Frame)
      requires top <= freeStack.Length == MAX_FRAMES
      modifies this`top, freeStack
      ensures top <= freeStack.Length
      ensures freeStack[..top] == if old(top) >= MAX_FRAMES then old(freeStack[..top]) else old(freeStack[..top]) + [f]
    {
      if top >= MAX_FRAMES {
        return;
      }
      freeStack[top] := f;
      top := top + 1;
    }

    ghost predicate TableAt(root: Frame, p: Path, table: Frame, i: nat)
      reads this
    {
      && root in s.spaces && p in s.spaces[root] && |p| < 4 && s.spaces[root][p] == table
      && table in s.mem && i < ENTRIES && (|p| == 0 ==> i < 256 && i !in s.kernelSlots)
    }

    /** Hang a frame the caller has just allocated under an unused entry. */
    method SetLink(ghost root: Frame, ghost p: Path, table: Frame, i: nat, link: Entry)
      requires Valid() && TableAt(root, p, table, i) && At(mem, table, i) == UNUSED
      requires Loose(s, link.frame) && link.frame in mem && (|p| < 3 ==> mem[link.frame] == ZeroFrame())
      requires IsLink(|p|, link) && link.flags.user && Permits(s.mem, s.spaces[root], p, link)
      modifies this`mem, this`s
      ensures Valid() && s == Hang(old(s), root, p, i, link.frame, link)
    {
      hide Inv, Grows, FlatOf;
      HangKeeps(s, root, p, i, link.frame, link);
      mem := SetEntry(mem, table, i, link);
      s := Hang(s, root, p, i, link.frame, link);
    }

    method CreateTable(ghost root: Frame, ghost p: Path, table: Frame, i: nat, flags: Flags) returns (r: Option<Frame>)
      requires Valid() && TableAt(root, p, table, i) && At(mem, table, i) == UNUSED && |p| < 3
      requires flags.present && flags.user && !flags.huge
      requires Permits(s.mem, s.spaces[root], p, Entry(flags, 0))
      modifies this`mem, this`top, this`s
      ensures Valid() && Grows(old(s), s, root, {}) && FlatOf(s, root) == old(FlatOf(s, root))
      ensures Hangs(old(s), s, root, p, i, r) && (Plain(old(s), root, []) ==> Plain(s, root, []))
      ensures r.Some? ==> Permits(s.mem, s.spaces[root], Child(p, i), Entry(flags, 0))
      ensures r.None? ==> top == 0
    {
      hide Inv, Grows, FlatOf, Plain, Permits;
      ghost var s0 := s;
      NodeFrame(s, root, p);
      r := AllocateFrame(root);
      if r.Some? {
        ghost var s1 := s;
        ghost var link := Entry(flags, r.value);
        PermitsPopped(s0, root, r.value, p, Entry(flags, 0));
        PermitsLess(s1.mem, s1.spaces[root], p, Entry(flags, 0), link);
        HangKeeps(s1, root, p, i, r.value, Entry(flags, r.value));
        HangPlain(s1, root, p, i, r.value, Entry(flags, r.value));
        SetLink(root, p, table, i, Entry(flags, r.value));
        PopThenHang(s0, s1, s, root, r.value);
        LinkPermits(s.mem, s.spaces[root], p, i, Entry(flags, 0));
      }
    }

    /** Go through an existing entry, adding the flags it lacks. */
    method FollowTable(ghost root: Frame, ghost p: Path, table: Frame, i: nat, flags: Flags) returns (r: Option<Frame>)
      requires Valid() && TableAt(root, p, table, i) && At(mem, table, i) != UNUSED && |p| < 3
      requires flags.present && flags.user && !flags.huge
      requires Permits(s.mem, s.spaces[root], p, Entry(flags, 0))
      modifies this`mem, this`s
      ensures Valid() && Grows(old(s), s, root, {}) && FlatOf(s, root) == old(FlatOf(s, root))
      ensures Hangs(old(s), s, root, p, i, r) && (Plain(old(s), root, []) ==> Plain(s, root, []))
      ensures r.Some? ==> Permits(s.mem, s.spaces[root], Child(p, i), Entry(flags, 0))
      ensures r.None? ==> !Plain(old(s), root, [])
    {
      hide Inv, Grows, FlatOf, Plain, Permits;
      var e := At(mem, table, i);
      if e.flags.huge {
        GrowsRefl(s, root);
        HugeNotPlain(s, root, p, i);
        return None;
      }
      UsedIsLink(s, root, p, i);
      var link := Entry(AddFlags(e.flags, flags), e.frame);
      NodeFrame(s, root, p);
      UnionPermits(s, root, p, i, flags, link);
      RelinkKeeps(s, root, p, i, link);
      RelinkPlain(s, root, p, i, link);
      mem := SetEntry(mem, table, i, link);
      s := s.(mem := mem);
      LinkPermits(s.mem, s.spaces[root], p, i, Entry(flags, 0));
      return Some(e.frame);
    }

    /** The crate's step from a table to the next one, creating it when the entry is unused. */
    method NextTable(ghost root: Frame, ghost p: Path, table: Frame, i: nat, flags: Flags) returns (r: Option<Frame>)
      requires Valid() && TableAt(root, p, table, i) && |p| < 3
      requires flags.present && flags.user && !flags.huge
      requires Permits(s.mem, s.spaces[root], p, Entry(flags, 0))
      modifies this`mem, this`top, this`s
      ensures Valid() && Grows(old(s), s, root, {}) && FlatOf(s, root) == old(FlatOf(s, root))
      ensures Hangs(old(s), s, root, p, i, r) && (Plain(old(s), root, []) ==> Plain(s, root, []))
      ensures r.Some? ==> Permits(s.mem, s.spaces[root], Child(p, i), Entry(flags, 0))
      ensures r.None? ==> top == 0 || !Plain(old(s), root, [])
    {
      hide Inv, Grows, FlatOf, Plain, Permits;
      if At(mem, table, i) == UNUSED {
        r := CreateTable(root, p, table, i, flags);
      } else {
        r := FollowTable(root, p, table, i, flags);
      }
    }

    /** `map_to`: walk to the page table of `path`, creating tables, then set an unused leaf. */
    method MapUserPage(root: Frame, path: Path, frame: Frame, flags: Flags) returns (ok: bool)
      requires Valid() && root in s.spaces
      requires |path| == 4 && PathOk(path) && path[0] !in s.kernelSlots
      requires flags.present && flags.user
      requires Loose(s, frame) && frame in mem
      modifies this`mem, this`top, this`s
      ensures Valid() && Grows(old(s), s, root, {frame})
      ensures FlatOf(s, root)
           == if ok then old(FlatOf(s, root))[path := Entry(flags, frame)] else old(FlatOf(s, root))
      ensures ok ==> frame in s.mem && s.mem[frame] == old(s.mem[frame]) && path !in old(FlatOf(s, root))
      ensures Plain(old(s), root, []) ==> Plain(s, root, [])
      ensures !ok ==> top == 0 || path in old(FlatOf(s, root)) || !Plain(old(s), root, [])
    {
      hide Inv, Grows, FlatOf, Plain, Loose, Permits;
      ghost var s0 := s;
      var table := ReachTable(root, path, flags);
      ghost var s1 := s;
      if table.None? {
        GrowsWeaken(s0, s, root, {frame});
        return false;
      }
      NodeFrame(s, root, path[..3]);
      if At(mem, table.value, path[3]) != UNUSED {
        UsedLeaf(s, root, path[..3], path[3]);
        assert Child(path[..3], path[3]) == path;
        GrowsWeaken(s0, s, root, {frame});
        return false;
      }
      assert Child(path[..3], path[3]) == path;
      GrowsSame(s0, s1, root, {});
      GrowsLoose(s0, s1, root, frame);
      PermitsLess(s1.mem, s1.spaces[root], path[..3], Entry(ParentFlags(flags), 0), Entry(flags, frame));
      HangKeeps(s1, root, path[..3], path[3], frame, Entry(flags, frame));
      HangPlain(s1, root, path[..3], path[3], frame, Entry(flags, frame));
      SetLink(root, path[..3], table.value, path[3], Entry(flags, frame));
      GrowsTrans(s0, s1, s, root, {frame});
      return true;
    }

    /** The first half of `map_to`: walk to the lowest table on the path, creating the missing ones. */
    method ReachTable(root: Frame, path: Path, flags: Flags) returns (r: Option<Frame>)
      requires Valid() && root in s.spaces
      requires |path| == 4 && PathOk(path) && path[0] !in s.kernelSlots
      requires flags.present && flags.user
      modifies this`mem, this`top, this`s
      ensures Valid() && Grows(old(s), s, root, {}) && FlatOf(s, root) == old(FlatOf(s, root))
      ensures Plain(old(s), root, []) ==> Plain(s, root, [])
      ensures r.None? ==> top == 0 || !Plain(old(s), root, [])
      ensures r.Some? ==> root in s.spaces && path[..3] in s.spaces[root] && s.spaces[root][path[..3]] == r.value
      ensures r.Some? ==> Permits(s.mem, s.spaces[root], path[..3], Entry(ParentFlags(flags), 0))
    {
      hide Inv, Grows, FlatOf, Plain, ParentFlags, Loose, Permits;
      ParentIsUser(flags);
      var table, d := root, 0;
      ghost var s0 := s;
      RootFrame(s, root);
      GrowsRefl(s, root);
      NothingAbove(s.mem, s.spaces[root], Entry(ParentFlags(flags), 0));
      assert path[..0] == [];
      while d < 3
        invariant 0 <= d <= 3
        invariant Valid() && Grows(s0, s, root, {})
        invariant FlatOf(s, root) == FlatOf(s0, root) && (Plain(s0, root, []) ==> Plain(s, root, []))
        invariant root in s.spaces && path[..d] in s.spaces[root] && s.spaces[root][path[..d]] == table
        invariant Permits(s.mem, s.spaces[root], path[..d], Entry(ParentFlags(flags), 0))
      {
        ghost var s1 := s;
        NodeFrame(s, root, path[..d]);
        GrowsSame(s0, s, root, {});
        var next := NextTable(root, path[..d], table, path[d], ParentFlags(flags));
        GrowsTrans(s0, s1, s, root, {});
        if next.None? {
          return None;
        }
        assert Child(path[..d], path[d]) == path[..d + 1];
        table, d := next.value, d + 1;
      }
      return Some(table);
    }

    /** Allocate a frame and map it at the page of `va`. A failed mapping leaks the frame, as in the kernel. */
    method MapUserPageAlloc(root: Frame, va: nat, flags: Flags) returns (r: Result<Frame>)
      requires Valid() && root in s.spaces
      requires va < USER_END && PathOf(va)[0] !in s.kernelSlots
      requires flags.present && flags.user
      modifies this`mem, this`top, this`s
      ensures Valid() && Grows(old(s), s, root, {})
      ensures r.Err? ==> FlatOf(s, root) == old(FlatOf(s, root))
      ensures r.Ok? ==>
                && FlatOf(s, root) == old(FlatOf(s, root))[PathOf(va) := Entry(flags, r.value)]
                && PathOf(va) !in old(FlatOf(s, root))
                && r.value in old(s.free) && r.value in s.mem && s.mem[r.value] == ZeroFrame()
      ensures Plain(old(s), root, []) ==> Plain(s, root, [])
      ensures r.Err? ==> top == 0 || PathOf(va) in old(FlatOf(s, root)) || !Plain(old(s), root, [])
    {
      hide Inv, Grows, FlatOf, PathOf, Plain;
      PageOfSplit(va);
      ghost var s0 := s;
      var f := AllocateFrame(root);
      if f.None? {
        return Err("out of physical frames");
      }
      ghost var s1 := s;
      var ok := MapUserPage(root, PathOf(va), f.value, flags);
      PopThenHang(s0, s1, s, root, f.value);
      GrowsSame(s0, s, root, {});
      if !ok {
        return Err("user map_to failed");
      }
      return Ok(f.value);
    }

    /** Innermost body of `clone_user_space`: one present user page gets a fresh frame and a copy. */
    method CopyPage(ghost src: Frame, dst: Frame, q: Path, e: Entry) returns (ok: bool)
      requires Valid() && src in s.spaces && dst in s.spaces && src != dst
      requires q in FlatOf(s, src) && FlatOf(s, src)[q] == e && e.flags.user && q !in FlatOf(s, dst)
      modifies this`mem, this`top, this`s
      ensures Valid() && Grows(old(s), s, dst, {}) && (Plain(old(s), dst, []) ==> Plain(s, dst, []))
      ensures ok ==> Cloned(old(s), s, src, dst, {q})
      ensures !ok ==> top == 0 || !Plain(old(s), dst, [])
    {
      hide Inv, Grows, FlatOf, PathOf, PageOf, Cloned, Plain;
      ghost var s0 := s;
      FlatLength(s, src, q);
      FlatPages(s, src, q);
      SlotsAreUser(s, src, q);
      SplitOfPage(q);
      var va := PageOf(q);
      var r := MapUserPageAlloc(dst, va, e.flags);
      if r.Err? {
        return false;
      }
      ghost var s1 := s;
      OtherSpace(s0, s1, src, dst, {});
      mem := mem[r.value := mem[e.frame]];
      s := s.(mem := mem);
      assert FlatOf(s1, dst)[q] == Entry(e.flags, r.value);
      ClonedPage(s0, s1, s, src, dst, q);
      GrowsSame(s0, s1, dst, {});
      FlatPages(s1, dst, q);
      WritePlain(s1, dst, r.value, mem[r.value]);
      ClonedGrows(s0, s, src, dst, {q});
      return true;
    }

    ghost predicate CloneReady(src: Frame, dst: Frame, p: Path, table: Frame)
      reads this
    {
      && src in s.spaces && dst in s.spaces && src != dst
      && p in s.spaces[src] && s.spaces[src][p] == table && |p| < 4
    }

    /** The body of the loop over table `p`, at entry `i`. */
    method CloneEntry(src: Frame, dst: Frame, p: Path, table: Frame, i: nat) returns (ok: bool)
      requires Valid() && CloneReady(src, dst, p, table) && i < ENTRIES
      requires forall q | q in FlatOf(s, dst) :: !(Child(p, i) <= q)
      modifies this`mem, this`top, this`s
      ensures Valid() && Grows(old(s), s, dst, {}) && (Plain(old(s), dst, []) ==> Plain(s, dst, []))
      ensures ok ==> Cloned(old(s), s, src, dst, Region(old(FlatOf(s, src)), Child(p, i)))
      ensures ok ==> PlainEntry(s, src, p, i)
      ensures !ok ==> top == 0 || !Plain(old(s), dst, []) || !Plain(old(s), src, [])
      decreases 4 - |p|, 0
    {
      hide Inv, Grows, FlatOf, Cloned, Plain, Region;
      ghost var s0 := s;
      NodeFrame(s, src, p);
      var e := At(mem, table, i);
      if |p| == 3 {
        ok := CloneLeaf(src, dst, p, table, i);
      } else {
        UpperEntry(s, src, p, i);
        if !e.flags.present || (|p| == 0 && !e.flags.user) {
          NothingBelow(s, src, Child(p, i));
          ClonedNothing(s, src, dst, Region(FlatOf(s, src), Child(p, i)));
          ClonedGrows(s, s, src, dst, Region(FlatOf(s, src), Child(p, i)));
          return true;
        }
        if e.flags.huge {
          GrowsRefl(s, dst);
          SourceHuge(s, src, p, i);
          return false;
        }
        ok := CloneTable(src, dst, Child(p, i), e.frame);
        OtherSpace(s0, s, src, dst, {});
      }
    }

    method CloneLeaf(ghost src: Frame, dst: Frame, p: Path, table: Frame, i: nat) returns (ok: bool)
      requires Valid() && CloneReady(src, dst, p, table) && i < ENTRIES && |p| == 3
      requires forall q | q in FlatOf(s, dst) :: !(Child(p, i) <= q)
      modifies this`mem, this`top, this`s
      ensures Valid() && Grows(old(s), s, dst, {}) && (Plain(old(s), dst, []) ==> Plain(s, dst, []))
      ensures ok ==> Cloned(old(s), s, src, dst, Region(old(FlatOf(s, src)), Child(p, i)))
      ensures ok ==> PlainEntry(s, src, p, i)
      ensures !ok ==> top == 0 || !Plain(old(s), dst, []) || !Plain(old(s), src, [])
    {
      hide Inv, Grows, FlatOf, Cloned, Plain;
      ghost var s0 := s;
      LeafEntry(s, src, p, i);
      PlainDeep(s, src, Child(p, i));
      var e := At(mem, table, i);
      if !e.flags.present || !e.flags.user {
        ClonedNothing(s, src, dst, Region(FlatOf(s, src), Child(p, i)));
        ClonedGrows(s, s, src, dst, Region(FlatOf(s, src), Child(p, i)));
        return true;
      }
      assert Region(FlatOf(s, src), Child(p, i)) == {Child(p, i)};
      ok := CopyPage(src, dst, Child(p, i), e);
      OtherSpace(s0, s, src, dst, {});
      PlainDeep(s, src, Child(p, i));
    }

    /** The loop over the 512 entries of table `p`; the levels of the source's nest are its recursion. */
    method CloneTable(src: Frame, dst: Frame, p: Path, table: Frame) returns (ok: bool)
      requires Valid() && CloneReady(src, dst, p, table)
      requires forall q | q in FlatOf(s, dst) :: !(p <= q)
      modifies this`mem, this`top, this`s
      ensures Valid() && Grows(old(s), s, dst, {}) && (Plain(old(s), dst, []) ==> Plain(s, dst, []))
      ensures ok ==> Cloned(old(s), s, src, dst, Region(old(FlatOf(s, src)), p)) && Plain(s, src, p)
      ensures !ok ==> top == 0 || !Plain(old(s), dst, []) || !Plain(old(s), src, [])
      decreases 4 - |p|, 1
    {
      hide Inv, Grows, FlatOf, Cloned, Plain, Region, RegionTo, PlainTo, PlainEntry;
      ghost var s0 := s;
      ghost var flat := FlatOf(s, src);
      RegionWhole(s, src, p);
      ClonedNothing(s, src, dst, RegionTo(flat, p, 0));
      NodeFrame(s, src, p);
      PlainToNone(s, src, p);
      var i := 0;
      while i < ENTRIES
        invariant 0 <= i <= ENTRIES
        invariant Valid() && CloneReady(src, dst, p, table)
        invariant Cloned(s0, s, src, dst, RegionTo(flat, p, i))
        invariant PlainTo(s, src, p, i) && (Plain(s0, dst, []) ==> Plain(s, dst, []))
      {
        ghost var s1 := s;
        ClonedFlat(s0, s1, src, dst, RegionTo(flat, p, i));
        NoneAhead(s0, s1, src, dst, p, i);
        ok := CloneEntry(src, dst, p, table, i);
        if !ok {
          GrowsTrans(s0, s1, s, dst, {});
          PlainKept(s0, s1, src, dst, []);
          return false;
        }
        CloneStep(s0, s1, s, src, dst, p, i);
        i := i + 1;
      }
      RegionWhole(s0, src, p);
      PlainWhole(s, src, p);
      ClonedFlat(s0, s, src, dst, RegionTo(flat, p, ENTRIES));
      ok := true;
    }

    /** The loop of `new_user` over PML4 slots 1 .. 512. */
    method CopyKernelEntries(active: Frame, f: Frame)
      requires f in mem && active in mem && active != f && mem[f] == ZeroFrame()
      modifies this`mem
      ensures f in mem && mem == old(mem)[f := mem[f]] && KernelCopy(old(mem), mem, active, f, ENTRIES)
    {
      var i := 1;
      while i < ENTRIES
        invariant 1 <= i <= ENTRIES
        invariant f in mem && mem == old(mem)[f := mem[f]]
        invariant KernelCopy(old(mem), mem, active, f, i)
      {
        ghost var before := mem;
        var e := At(mem, active, i);
        if e.flags.present && !e.flags.user {
          mem := SetEntry(mem, f, i, e);
        }
        forall j: nat | j < ENTRIES
          ensures At(mem, f, j)
               == if 0 < j < i + 1 && IsKernelEntry(At(old(mem), active, j)) then At(old(mem), active, j) else UNUSED
        {
          assert At(mem, f, j) == if j == i && IsKernelEntry(e) then e else At(before, f, j);
        }
        i := i + 1;
      }
    }

    /** A new space: a zeroed PML4 with the kernel's entries from the active one. */
    method NewUser(active: Frame) returns (r: Result<Frame>)
      requires Valid() && active !in s.free && KernelView(s.mem, active, s.kernelSlots)
      modifies this`mem, this`top, this`s
      ensures Valid() && Untouched(old(s), s)
      ensures r.Err? ==> s == old(s)
      ensures r.Err? <==> old(top) == 0
      ensures r.Ok? ==>
                && r.value !in old(s.spaces) && r.value in old(s.free) && s.free < old(s.free)
                && s.spaces == old(s.spaces)[r.value := EmptyTree(r.value)]
                && FlatOf(s, r.value) == map[] && Plain(s, r.value, [])
                && SameKernel(old(s.mem), active, s.mem, r.value, s.kernelSlots)
    {
      hide Inv, FlatOf, Grows, Flat, Plain, Untouched, KernelView, KernelCopy, Loose, AddSpace, SameKernel;
      ghost var s0 := s;
      UntouchedRefl(s);
      ActiveMapped(s.mem, active, s.kernelSlots);
      var a := AllocateFrame(active);
      if a.None? {
        return Err("out of frames for PML4");
      }
      var f := a.value;
      ghost var s1 := s;
      NewUserFrame(s0, f, top, active);
      CopyKernelEntries(active, f);
      NewUserSpace(s0, s1, mem, active, f);
      s := AddSpace(s1.(mem := mem), f);
      return Ok(f);
    }

    /** `fork`'s deep copy. A failed copy drops the half-built child, whose frames are then leaked. */
    method CloneUserSpace(src: Frame, active: Frame) returns (r: Result<Frame>)
      requires Valid() && src in s.spaces
      requires active !in s.free && KernelView(s.mem, active, s.kernelSlots)
      modifies this`mem, this`top, this`s
      ensures Valid()
      ensures r.Ok? ==> Forked(old(s), s, src, r.value)
      ensures r.Ok? ==> SameKernel(old(s.mem), active, s.mem, r.value, s.kernelSlots)
      ensures r.Err? ==> Untouched(old(s), s) && s.spaces == old(s.spaces)
      ensures r.Err? ==> top == 0 || !Plain(old(s), src, [])
    {
      hide Inv, Grows, FlatOf, Cloned, Plain, KernelView, Untouched, Forked, Region, SameKernel;
      ghost var s0 := s;
      r := NewUser(active);
      if r.Err? {
        return;
      }
      var child := r.value;
      ghost var s1 := s;
      RootFrame(s, src);
      var ok := CloneTable(src, child, [], src);
      if !ok {
        UntouchedGrows(s0, s1, s, child);
        GrowsSame(s1, s, child, {});
        DropSpaceKeeps(s, child);
        UntouchedDrop(s0, s, child);
        s := DropSpace(s, child);
        PlainUntouched(s0, s1, src);
        return Err("out of frames or huge page");
      }
      ForkedFromClone(s0, s1, s, src, child);
      GrowsSame(s1, s, child, {});
      RootFrame(s1, child);
      KernelOnward(s0, s1, s, active, child);
    }

    /** Push one frame of a dropped space. */
    method ReturnFrame(ghost t: Tree, ghost q: Path, f: Frame)
      requires Valid() && q in t && t[q] == f && Loose(s, f)
      modifies this`top, this`s, freeStack
      ensures Valid() && Returned(old(s), s, t, {q})
    {
      hide Inv, Returned, Loose;
      PushKeeps(s, f);
      ReturnedOne(s, t, q);
      DeallocateFrame(f);
      s := s.(free := s.free + [f]);
    }

    /** The nested loops of `dealloc_user`: free everything under table `p`, deepest first. */
    method DeallocTable(ghost t: Tree, p: Path, table: Frame)
      requires Valid() && Wf(s.mem, t) && Injective(t)
      requires p in t && t[p] == table && 1 <= |p| < 4
      requires AllLoose(s, t, Below(t, p) - {p})
      modifies this`top, this`s, freeStack
      ensures Valid() && Returned(old(s), s, t, Below(t, p) - {p})
      decreases 4 - |p|, 1
    {
      hide Inv, Returned, Wf, Injective, AllLoose, Below, BelowTo, NodeOk;
      ghost var s0 := s;
      WfClosed(s.mem, t);
      BelowAll(t, p);
      ReturnedNone(s, t);
      var i := 0;
      while i < ENTRIES
        invariant 0 <= i <= ENTRIES
        invariant Valid() && s.mem == s0.mem
        invariant Returned(s0, s, t, BelowTo(t, p, i))
      {
        ghost var s1 := s;
        BelowStep(t, p, i);
        LooseBelow(s0, s1, t, p, i);
        DeallocOne(t, p, table, i);
        ReturnedTrans(s0, s1, s, t, BelowTo(t, p, i), Below(t, Child(p, i)));
        ReturnedMem(s1, s, t, Below(t, Child(p, i)));
        i := i + 1;
      }
    }

    /** The loop body at entry `i`: skip what is absent or huge, else free the subtree and its frame. */
    method DeallocOne(ghost t: Tree, p: Path, table: Frame, i: nat)
      requires Valid() && Wf(s.mem, t) && Injective(t)
      requires p in t && t[p] == table && 1 <= |p| < 4 && i < ENTRIES
      requires AllLoose(s, t, Below(t, Child(p, i)))
      modifies this`top, this`s, freeStack
      ensures Valid() && Returned(old(s), s, t, Below(t, Child(p, i)))
      decreases 4 - |p|, 0
    {
      hide Inv, Returned, Wf, Injective, Below, NodeOk;
      ghost var s0 := s;
      ghost var c := Child(p, i);
      WfClosed(s.mem, t);
      DeallocEntry(s.mem, t, p, i);
      var e := At(mem, table, i);
      if !e.flags.present || (|p| < 3 && e.flags.huge) {
        BelowMissing(t, c);
        ReturnedNone(s, t);
        return;
      }
      if |p| < 3 {
        LooseSubset(s, t, Below(t, c) - {c}, Below(t, c));
        DeallocTable(t, Child(p, i), e.frame);
      } else {
        BelowLeaf(t, c);
        ReturnedNone(s, t);
      }
      ghost var s1 := s;
      SelfBelow(t, c);
      StillLoose(s0, s1, t, Below(t, c) - {c}, {c});
      ReturnFrame(t, c, e.frame);
      ReturnedTrans(s0, s1, s, t, Below(t, c) - {c}, {c});
      assert Below(t, c) - {c} + {c} == Below(t, c);
    }

    /** Free a space's slot-0 subtree and its PML4; pages under other user slots stay allocated. */
    method DeallocUser(root: Frame)
      requires Valid() && root in s.spaces
      modifies this`top, this`s, freeStack
      ensures Valid()
      ensures Reclaimed(old(s), s, root)
    {
      hide Inv, Returned, Wf, Injective, Below, NodeOk, Loose, Reclaimed;
      ghost var s0 := s;
      ghost var t := s.spaces[root];
      LiveWf(s, root);
      WfClosed(s.mem, t);
      InvInjective(s, root);
      RootFrame(s, root);
      DropSpaceKeeps(s, root);
      s := DropSpace(s, root);
      ghost var s1 := s;
      DeallocEntry(s.mem, t, [], 0);
      assert Child([], 0) == [0];
      var e := At(mem, root, 0);
      if e.flags.present {
        DeallocTable(t, [0], e.frame);
        ghost var s2 := s;
        SelfBelow(t, [0]);
        StillLoose(s1, s2, t, Below(t, [0]) - {[0]}, {[0]});
        ReturnFrame(t, [0], e.frame);
        ReturnedTrans(s1, s2, s, t, Below(t, [0]) - {[0]}, {[0]});
        assert Below(t, [0]) - {[0]} + {[0]} == Below(t, [0]);
      } else {
        BelowMissing(t, [0]);
        ReturnedNone(s, t);
      }
      ghost var s3 := s;
      RootNotBelow(t);
      StillLoose(s1, s3, t, Below(t, [0]), {[]});
      ReturnFrame(t, [], root);
      ReturnedTrans(s1, s3, s, t, Below(t, [0]), {[]});
      ReclaimedFrom(s0, s1, s, root);
    }
  }

  lemma FreshPlain(s: Snap, f: Frame)
    requires FreshRoot(s, f)
    ensures Plain(AddSpace(s, f), f, [])
  {
    assert forall i: nat | i < ENTRIES :: At(s.mem, f, i).flags.present ==> !At(s.mem, f, i).flags.user;
    assert NoHuge(0, s.mem[f]) by {
      forall i: nat | i < ENTRIES
        ensures s.mem[f][i].flags.present && s.mem[f][i].flags.user ==> !s.mem[f][i].flags.huge
      {
        assert At(s.mem, f, i) == s.mem[f][i];
      }
    }
  }

  lemma UntouchedRefl(s: Snap)
    ensures Untouched(s, s)
  {
  }

  lemma CopiedRoot(s: Snap, s': Snap, active: Frame, f: Frame)
    requires KernelView(s.mem, active, s.kernelSlots) && s'.kernelSlots == s.kernelSlots
    requires f in s'.mem && KernelCopy(s.mem, s'.mem, active, f, ENTRIES)
    requires 0 !in s.kernelSlots
    ensures FreshRoot(s', f) && SameKernel(s.mem, active, s'.mem, f, s.kernelSlots)
  {
    forall i: nat | 0 < i < ENTRIES
      ensures IsKernelEntry(At(s'.mem, f, i)) <==> i in s.kernelSlots
      ensures i in s.kernelSlots ==> At(s'.mem, f, i) == At(s.mem, active, i)
    {
      assert IsKernelEntry(At(s.mem, active, i)) <==> i in s.kernelSlots;
    }
  }

  /** Kernel slots copied into a new space stay there while the space is filled. */
  lemma KernelOnward(s: Snap, s1: Snap, s2: Snap, active: Frame, root: Frame)
    requires Untouched(s, s1) && root in s1.spaces && root in s1.mem
    requires SameKernel(s.mem, active, s1.mem, root, s1.kernelSlots)
    requires SameKernel(s1.mem, root, s2.mem, root, s1.kernelSlots) && s2.mem.Keys == s1.mem.Keys
    requires s2.kernelSlots == s1.kernelSlots
    ensures SameKernel(s.mem, active, s2.mem, root, s2.kernelSlots)
  {
    hide FlatOf;
    forall i: nat | i in s.kernelSlots && i < ENTRIES && active in s.mem && root in s2.mem
      ensures At(s2.mem, root, i) == At(s.mem, active, i)
    {
      assert At(s1.mem, root, i) == At(s.mem, active, i);
    }
  }

  lemma ActiveMapped(mem: Mem, f: Frame, kernelSlots: set<nat>)
    requires KernelView(mem, f, kernelSlots)
    ensures f in mem
  {
  }

  /** The frame on top of the free stack is free, and not the active root. */
  lemma NewUserFrame(s: Snap, f: Frame, top: nat, active: Frame)
    requires top < |s.free| && f == s.free[top] && active !in s.free
    ensures f in s.free && f != active
    ensures s.free[..top] < s.free
  {
  }

  /** A zeroed frame with the kernel's entries becomes a space of its own; nothing else changes. */
  lemma NewUserSpace(s0: Snap, s1: Snap, mem: Mem, active: Frame, f: Frame)
    requires Inv(s1) && Loose(s1, f) && f in s0.free && f in s0.mem && f in mem && active in s0.mem && active != f
    requires KernelView(s0.mem, active, s0.kernelSlots)
    requires s1 == s0.(mem := s0.mem[f := ZeroFrame()], free := s1.free) && s1.free < s0.free
    requires forall q | q in s1.spaces :: FlatOf(s1, q) == FlatOf(s0, q)
    requires mem == s1.mem[f := mem[f]] && KernelCopy(s1.mem, mem, active, f, ENTRIES)
    ensures var s' := AddSpace(s1.(mem := mem), f);
            && Inv(s') && Untouched(s0, s') && s'.mem == mem && s'.free == s1.free && s'.kernelSlots == s0.kernelSlots
            && f !in s0.spaces && s'.spaces == s0.spaces[f := EmptyTree(f)] && s'.pool == s0.pool
            && FlatOf(s', f) == map[] && Plain(s', f, []) && SameKernel(s0.mem, active, s'.mem, f, s0.kernelSlots)
  {
    var s2 := s1.(mem := mem);
    CopiedEntries(s0.mem, s1.mem, mem, active, f);
    CopiedRoot(s0, s2, active, f);
    hide Inv, FlatOf, Flat, Plain, FreshRoot, KernelView, KernelCopy, SameKernel;
    WritePageKeeps(s1, f, mem[f]);
    AddSpaceKeeps(s2, f);
    FreshPlain(s2, f);
    NewUserUntouched(s0, AddSpace(s2, f), f);
  }

  lemma CopiedEntries(mem0: Mem, mem1: Mem, mem: Mem, active: Frame, f: Frame)
    requires active in mem0 && active != f && mem1 == mem0[f := ZeroFrame()] && f in mem
    requires KernelCopy(mem1, mem, active, f, ENTRIES)
    ensures KernelCopy(mem0, mem, active, f, ENTRIES)
  {
  }

  lemma NewUserUntouched(s: Snap, s': Snap, f: Frame)
    requires f in s.free && f in s.mem && f !in s.spaces && f in s'.mem
    requires s'.pool == s.pool && s'.kernelSlots == s.kernelSlots && s'.free <= s.free
    requires s'.mem == s.mem[f := s'.mem[f]]
    requires s'.spaces == s.spaces[f := EmptyTree(f)]
    requires forall r | r in s.spaces :: FlatOf(s', r) == FlatOf(s, r)
    ensures Untouched(s, s')
  {
  }

  lemma WfClosed(mem: Mem, t: Tree)
    requires Wf(mem, t)
    ensures Closed(t)
  {
  }

  lemma UntouchedDrop(s: Snap, s': Snap, child: Frame)
    requires Untouched(s, s') && child !in s.spaces && s'.spaces.Keys == s.spaces.Keys + {child} && Inv(s')
    ensures Untouched(s, DropSpace(s', child)) && DropSpace(s', child).spaces == s.spaces
  {
    hide Inv, FlatOf;
    DropSpaceKeeps(s', child);
  }

  lemma LooseSubset(s: Snap, t: Tree, a: set<Path>, b: set<Path>)
    requires a <= b && AllLoose(s, t, b)
    ensures AllLoose(s, t, a)
  {
  }

  lemma SelfBelow(t: Tree, p: Path)
    requires p in t
    ensures p in Below(t, p)
  {
  }

  lemma RootNotBelow(t: Tree)
    ensures [] !in Below(t, [0])
  {
  }

  lemma ReturnedMem(s: Snap, s': Snap, t: Tree, region: set<Path>)
    requires Returned(s, s', t, region)
    ensures s'.mem == s.mem
  {
  }

  lemma LooseBelow(s: Snap, s1: Snap, t: Tree, p: Path, i: nat)
    requires Injective(t) && AllLoose(s, t, Below(t, p) - {p})
    requires Returned(s, s1, t, BelowTo(t, p, i))
    ensures AllLoose(s1, t, Below(t, Child(p, i)))
  {
    hide Returned, Injective;
    BelowStep(t, p, i);
    assert Below(t, Child(p, i)) <= Below(t, p) - {p} by {
      forall q | q in Below(t, Child(p, i)) ensures q != p { ChildPrefix(p, i, q); }
    }
    LooseSubset(s, t, Below(t, Child(p, i)), Below(t, p) - {p});
    StillLoose(s, s1, t, BelowTo(t, p, i), Below(t, Child(p, i)));
  }
}
