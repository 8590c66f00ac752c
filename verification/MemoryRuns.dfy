/** Whole runs of address-space operations, frame accounting and what a reap cannot return. */
module MemoryRuns {
  import opened AddressSpace
  import opened Bytes
  import opened ElfLoader
  import opened Fork
  import opened Isolation
  import opened Ownership
  import opened Paging
  import opened Reclaim
  import opened Spaces
  import opened VirtualMemory

  /** Allocated frames no live space owns: the kernel will never free them. */
  ghost function Leaked(s: Snap): set<Frame> {
    set f | f in s.pool && Loose(s, f)
  }

  /** Free, owned and leaked frames partition the pool: nothing is counted, or freed, twice. */
  lemma Accounting(s: Snap)
    requires Inv(s)
    ensures |s.pool| == |s.free| + |s.owner.Keys| + |Leaked(s)|
  {
    hide SpacesOk;
    var free := set f | f in s.free;
    FreeSet(s.free, free);
    PartitionCount(s.pool, free, s.owner.Keys, Leaked(s));
  }

  lemma PartitionCount(pool: set<Frame>, a: set<Frame>, b: set<Frame>, c: set<Frame>)
    requires a <= pool && b <= pool && a !! b
    requires forall f :: f in c <==> f in pool && f !in a && f !in b
    ensures |pool| == |a| + |b| + |c|
  {
    assert pool == a + b + c;
    assert |a + b| == |a| + |b|;
  }

  lemma {:induction false} FreeSet(free: seq<Frame>, elements: set<Frame>)
    requires forall i, j | 0 <= i < j < |free| :: free[i] != free[j]
    requires elements == set f | f in free
    ensures |elements| == |free|
  {
    if free != [] {
      var n := |free| - 1;
      FreeSet(free[..n], elements - {free[n]});
    }
  }

  /** Requests name spaces by their position in the list of live handles, as processes hold them. */
  datatype Op =
    | Create(a: nat)                          // `a`: the process that runs, whose page table is active
    | Map(h: nat, va: nat, flags: Flags)
    | Clone(h: nat, a: nat)                   // `fork` clones the running process: h == a
    | Put(h: nat, va: nat, b: byte)           // a store by user code
    | Destroy(h: nat)

  /** The live handles are exactly the live spaces, each held once. */
  ghost predicate LiveOk(s: Snap, live: seq<Frame>) {
    && (forall r :: r in s.spaces <==> r in live)
    && (forall i, j | 0 <= i < j < |live| :: live[i] != live[j])
  }

  ghost predicate BootTable(s: Snap, boot: Frame) {
    boot !in s.pool && KernelView(s.mem, boot, s.kernelSlots)
  }

  ghost predicate Sound(s: Snap, live: seq<Frame>, boot: Frame, pool: set<Frame>, slots: set<nat>) {
    LiveOk(s, live) && BootTable(s, boot) && s.pool == pool && s.kernelSlots == slots
  }

  /** Every live space has the boot table's kernel slots, word for word. */
  ghost predicate KernelShared(s: Snap, boot: Frame) {
    boot in s.mem && forall r | r in s.spaces :: SameKernel(s.mem, boot, s.mem, r, s.kernelSlots)
  }

  ghost predicate AllPlain(s: Snap) { forall r | r in s.spaces :: Plain(s, r, []) }

  /** The active page table: that of a live space, or the boot table. */
  function Active(live: seq<Frame>, boot: Frame, a: nat): Frame { if a < |live| then live[a] else boot }

  lemma LiveActive(s: Snap, live: seq<Frame>, boot: Frame, pool: set<Frame>, slots: set<nat>, a: nat)
    requires Inv(s) && Sound(s, live, boot, pool, slots)
    ensures Active(live, boot, a) !in s.free && KernelView(s.mem, Active(live, boot, a), s.kernelSlots)
  {
    BootActive(s, boot);
    if a < |live| {
      RootFrame(s, live[a]);
      hide KernelView;
      assert live[a] in s.spaces;
    }
  }

  /** Every run of create, map, clone, store and destroy, from boot, whoever runs, keeps the ownership invariant and the
      accounts. */
  method Run(m: Machine, ops: seq<Op>, boot: Frame, slots: set<nat>) returns (live: seq<Frame>)
    requires m.Valid() && m.s.spaces == map[] && BootTable(m.s, boot) && m.s.kernelSlots == slots
    modifies m, m.freeStack
    ensures m.Valid() && Sound(m.s, live, boot, old(m.s.pool), slots)
    ensures |old(m.s.pool)| == m.top + |m.s.owner.Keys| + |Leaked(m.s)|
    ensures KernelShared(m.s, boot)
  {
    hide Inv, Sound, Leaked;
    ghost var pool := m.s.pool;
    ghost var stack := m.freeStack;
    live := [];
    SoundStart(m.s, boot);
    var i := 0;
    while i < |ops|
      invariant 0 <= i <= |ops|
      invariant m.Valid() && m.freeStack == stack && Sound(m.s, live, boot, pool, slots) && AllPlain(m.s)
      invariant KernelShared(m.s, boot)
    {
      live := Step(m, ops[i], live, boot, pool, slots);
      i := i + 1;
    }
    Accounting(m.s);
    SoundPool(m.s, live, boot, pool, slots);
  }

  lemma SoundStart(s: Snap, boot: Frame)
    requires s.spaces == map[] && BootTable(s, boot)
    ensures Sound(s, [], boot, s.pool, s.kernelSlots)
  {
  }

  lemma SoundPool(s: Snap, live: seq<Frame>, boot: Frame, pool: set<Frame>, slots: set<nat>)
    requires Sound(s, live, boot, pool, slots)
    ensures s.pool == pool && s.kernelSlots == slots && BootTable(s, boot)
    ensures forall i | 0 <= i < |live| :: live[i] in s.spaces
  {
  }

  method Step(m: Machine, op: Op, live: seq<Frame>, boot: Frame, ghost pool: set<Frame>, slots: set<nat>)
    returns (live': seq<Frame>)
    requires m.Valid() && Sound(m.s, live, boot, pool, slots) && AllPlain(m.s) && KernelShared(m.s, boot)
    modifies m, m.freeStack
    ensures m.Valid() && m.freeStack == old(m.freeStack) && Sound(m.s, live', boot, pool, slots) && AllPlain(m.s)
    ensures KernelShared(m.s, boot)
  {
    hide KernelShared, SameKernel;
    hide Inv, Sound, BootTable, KernelView, Untouched, Forked, Grows, FlatOf, PathOf, Plain, Reclaimed, AllPlain, Translate, Store;
    ghost var s0 := m.s;
    SoundPool(s0, live, boot, pool, slots);
    live' := live;
    match op {
      case Create(a) =>
        LiveActive(s0, live, boot, pool, slots, a);
        var r := m.NewUser(Active(live, boot, a));
        if r.Ok? {
          live' := live + [r.value];
          SoundAdd(s0, m.s, live, boot, pool, slots, r.value);
          PlainAdded(s0, m.s, r.value);
          SharedAdded(s0, m.s, live, boot, pool, slots, a, r.value);
        }
      case Map(h, va, flags) =>
        if h < |live| && va < USER_END && PathOf(va)[0] !in slots && flags.present && flags.user {
          var r := m.MapUserPageAlloc(live[h], va, flags);
          SoundGrow(s0, m.s, live, boot, pool, slots, live[h]);
          PlainGrown(s0, m.s, live[h]);
          SharedGrown(s0, m.s, boot, live[h]);
        }
      case Clone(h, a) =>
        LiveActive(s0, live, boot, pool, slots, a);
        if h < |live| {
          var r := m.CloneUserSpace(live[h], Active(live, boot, a));
          if r.Ok? {
            ForkedKeys(s0, m.s, live[h], r.value);
            live' := live + [r.value];
            SoundAdd(s0, m.s, live, boot, pool, slots, r.value);
            PlainAdded(s0, m.s, r.value);
            SharedAdded(s0, m.s, live, boot, pool, slots, a, r.value);
          } else {
            SoundSame(s0, m.s, live, boot, pool, slots);
            PlainSame(s0, m.s);
            SharedUntouched(s0, m.s, boot);
          }
        }
      case Put(h, va, b) =>
        if h < |live| && va < USER_END && PathOf(va)[0] !in slots && Translate(m.mem, live[h], va).Some? {
          StoreSound(s0, live, boot, pool, slots, live[h], va, b);
          StoreShared(s0, live, boot, pool, slots, live[h], va, b);
          m.mem := Store(m.mem, live[h], va, b);
          m.s := m.s.(mem := m.mem);
        }
      case Destroy(h) =>
        if h < |live| {
          m.DeallocUser(live[h]);
          live' := live[..h] + live[h + 1..];
          SoundRemove(s0, m.s, live, boot, pool, slots, h);
          PlainRemoved(s0, m.s, live[h]);
          SharedRemoved(s0, m.s, boot, live[h]);
        }
    }
  }

  lemma PlainAdded(s: Snap, s': Snap, r: Frame)
    requires Inv(s) && Untouched(s, s') && AllPlain(s) && s'.spaces.Keys == s.spaces.Keys + {r} && Plain(s', r, [])
    ensures AllPlain(s')
  {
    hide Inv, Untouched, Plain;
    forall x | x in s'.spaces
      ensures Plain(s', x, [])
    {
      if x != r {
        PlainUntouched(s, s', x);
      }
    }
  }

  lemma PlainSame(s: Snap, s': Snap)
    requires Inv(s) && Untouched(s, s') && AllPlain(s) && s'.spaces == s.spaces
    ensures AllPlain(s')
  {
    hide Inv, Untouched, Plain;
    forall x | x in s'.spaces
      ensures Plain(s', x, [])
    {
      PlainUntouched(s, s', x);
    }
  }

  lemma PlainGrown(s: Snap, s': Snap, r: Frame)
    requires Inv(s) && Grows(s, s', r, {}) && AllPlain(s) && r in s.spaces && (Plain(s, r, []) ==> Plain(s', r, []))
    ensures AllPlain(s')
  {
    GrowsSame(s, s', r, {});
    hide Inv, Grows, Plain;
    forall x | x in s'.spaces
      ensures Plain(s', x, [])
    {
      if x != r {
        PlainKept(s, s', x, r, []);
      }
    }
  }

  lemma PlainRemoved(s: Snap, s': Snap, r: Frame)
    requires Reclaimed(s, s', r) && AllPlain(s)
    ensures AllPlain(s')
  {
    hide FlatOf, Loose, NoHuge;
    forall x | x in s'.spaces
      ensures Plain(s', x, [])
    {
      assert Plain(s, x, []);
    }
  }

  lemma StoreSound(s: Snap, live: seq<Frame>, boot: Frame, pool: set<Frame>, slots: set<nat>, r: Frame, va: nat, b: byte)
    requires Inv(s) && Sound(s, live, boot, pool, slots) && AllPlain(s) && r in s.spaces
    requires va < USER_END && PathOf(va)[0] !in slots && Translate(s.mem, r, va).Some?
    ensures var s' := s.(mem := Store(s.mem, r, va, b));
            Inv(s') && Sound(s', live, boot, pool, slots) && AllPlain(s')
  {
    hide Inv, FlatOf, PathOf, Translate, Store, Plain, KernelView, Sound, AllPlain;
    TranslatedMapped(s, r, va, slots, live, boot, pool);
    StoreKeeps(s, r, va, b);
    MappedByte(s, r, va);
    FlatLength(s, r, PathOf(va));
    StoredKeeps(s, live, boot, pool, slots, FrameAt(s, r, va), Store(s.mem, r, va, b)[FrameAt(s, r, va)]);
  }

  lemma TranslatedMapped(s: Snap, r: Frame, va: nat, slots: set<nat>, live: seq<Frame>, boot: Frame, pool: set<Frame>)
    requires Inv(s) && Sound(s, live, boot, pool, slots) && AllPlain(s) && r in s.spaces
    requires va < USER_END && PathOf(va)[0] !in slots && Translate(s.mem, r, va).Some?
    ensures Mapped(s, r, va)
  {
    hide Inv, FlatOf, PathOf, Translate, Plain, KernelView;
    TranslateFlat(s, r, va);
  }

  /** Writing a user page changes no table. */
  lemma StoredKeeps(s: Snap, live: seq<Frame>, boot: Frame, pool: set<Frame>, slots: set<nat>, f: Frame, c: FrameContent)
    requires Inv(s) && Sound(s, live, boot, pool, slots) && AllPlain(s)
    requires f in s.mem && f in s.owner && f in s.pool && |s.owner[f].path| == 4
    ensures Sound(s.(mem := s.mem[f := c]), live, boot, pool, slots) && AllPlain(s.(mem := s.mem[f := c]))
  {
    var s' := s.(mem := s.mem[f := c]);
    hide Inv, Plain;
    forall x | x in s'.spaces
      ensures Plain(s', x, [])
    {
      WritePlain(s, x, f, c);
    }
    BootActive(s, boot);
    KernelViewKept(s, s', boot);
  }

  lemma BootActive(s: Snap, boot: Frame)
    requires Inv(s) && BootTable(s, boot)
    ensures boot !in s.free && KernelView(s.mem, boot, s.kernelSlots)
  {
    hide SpacesOk, OwnersOk, KernelView;
  }

  lemma KernelViewKept(s: Snap, s': Snap, boot: Frame)
    requires BootTable(s, boot) && s'.pool == s.pool && s'.kernelSlots == s.kernelSlots
    requires boot in s'.mem && s'.mem[boot] == s.mem[boot]
    ensures BootTable(s', boot)
  {
    forall i: nat | 0 < i < ENTRIES
      ensures At(s'.mem, boot, i) == At(s.mem, boot, i)
    {
    }
  }

  lemma SoundAdd(s: Snap, s': Snap, live: seq<Frame>, boot: Frame, pool: set<Frame>, slots: set<nat>, r: Frame)
    requires Inv(s) && Sound(s, live, boot, pool, slots) && Untouched(s, s')
    requires r !in s.spaces && s'.spaces.Keys == s.spaces.Keys + {r}
    ensures Sound(s', live + [r], boot, pool, slots)
  {
    BootActive(s, boot);
    hide Inv, KernelView;
    assert forall x :: x in live + [r] <==> x in live || x == r;
    KernelViewKept(s, s', boot);
  }

  lemma SoundSame(s: Snap, s': Snap, live: seq<Frame>, boot: Frame, pool: set<Frame>, slots: set<nat>)
    requires Inv(s) && Sound(s, live, boot, pool, slots) && Untouched(s, s') && s'.spaces == s.spaces
    ensures Sound(s', live, boot, pool, slots)
  {
    BootActive(s, boot);
    hide Inv;
    KernelViewKept(s, s', boot);
  }

  lemma SoundGrow(s: Snap, s': Snap, live: seq<Frame>, boot: Frame, pool: set<Frame>, slots: set<nat>, r: Frame)
    requires Inv(s) && Sound(s, live, boot, pool, slots) && Grows(s, s', r, {})
    ensures Sound(s', live, boot, pool, slots)
  {
    BootActive(s, boot);
    assert boot !in s.owner;
    hide Inv;
    KernelViewKept(s, s', boot);
  }

  lemma SoundRemove(s: Snap, s': Snap, live: seq<Frame>, boot: Frame, pool: set<Frame>, slots: set<nat>, h: nat)
    requires h < |live| && Sound(s, live, boot, pool, slots) && Reclaimed(s, s', live[h])
    ensures Sound(s', live[..h] + live[h + 1..], boot, pool, slots)
  {
    hide FlatOf, Loose;
    var rest := live[..h] + live[h + 1..];
    forall r
      ensures r in rest <==> r in live && r != live[h]
    {
      if r in live && r != live[h] {
        var i :| 0 <= i < |live| && live[i] == r;
        assert rest[if i < h then i else i - 1] == r;
      }
    }
    KernelViewKept(s, s', boot);
  }

  lemma ForkedKeys(s: Snap, s': Snap, src: Frame, child: Frame)
    requires Forked(s, s', src, child)
    ensures child !in s.spaces && s'.spaces.Keys == s.spaces.Keys + {child} && Untouched(s, s') && Plain(s', child, [])
  {
  }

  /** A frame whose contents stay keeps its kernel slots. */
  lemma SameFrame(mem: Mem, mem': Mem, a: Frame, r: Frame, slots: set<nat>)
    requires a in mem && r in mem && a in mem' && r in mem' && mem'[a] == mem[a] && mem'[r] == mem[r]
    requires SameKernel(mem, a, mem, r, slots)
    ensures SameKernel(mem', a, mem', r, slots)
  {
    forall i: nat | i in slots && i < ENTRIES
      ensures At(mem', r, i) == At(mem', a, i)
    {
      assert At(mem, r, i) == At(mem, a, i);
    }
  }

  lemma BootStays(s: Snap, s': Snap, boot: Frame)
    requires Inv(s) && BootTable(s, boot) && Untouched(s, s')
    ensures boot in s.mem && boot in s'.mem && s'.mem[boot] == s.mem[boot]
  {
    BootActive(s, boot);
    ActiveMapped(s.mem, boot, s.kernelSlots);
  }

  lemma SharedUntouched(s: Snap, s': Snap, boot: Frame)
    requires Inv(s) && BootTable(s, boot) && KernelShared(s, boot) && Untouched(s, s')
    ensures boot in s'.mem && forall r | r in s.spaces :: SameKernel(s'.mem, boot, s'.mem, r, s'.kernelSlots)
    ensures s'.spaces == s.spaces ==> KernelShared(s', boot)
  {
    BootStays(s, s', boot);
    hide Inv, FlatOf, SameKernel, BootTable;
    forall r | r in s.spaces
      ensures SameKernel(s'.mem, boot, s'.mem, r, s'.kernelSlots)
    {
      RootFrame(s, r);
      NodeFrame(s, r, []);
      SameFrame(s.mem, s'.mem, boot, r, s.kernelSlots);
    }
  }

  /** A new space takes its kernel slots from the active table, which has them from the boot table. */
  lemma SharedAdded(s: Snap, s': Snap, live: seq<Frame>, boot: Frame, pool: set<Frame>, slots: set<nat>, a: nat, r: Frame)
    requires Inv(s) && Sound(s, live, boot, pool, slots) && KernelShared(s, boot) && Untouched(s, s')
    requires s'.spaces.Keys == s.spaces.Keys + {r} && SameKernel(s.mem, Active(live, boot, a), s'.mem, r, s'.kernelSlots)
    ensures KernelShared(s', boot)
  {
    BootStays(s, s', boot);
    SharedUntouched(s, s', boot);
    UntouchedSlots(s, s');
    var active := Active(live, boot, a);
    LiveActive(s, live, boot, pool, slots, a);
    ActiveMapped(s.mem, active, s.kernelSlots);
    hide Inv, Untouched, KernelView;
    forall i: nat | i in slots && i < ENTRIES && r in s'.mem
      ensures At(s'.mem, r, i) == At(s'.mem, boot, i)
    {
      assert At(s'.mem, r, i) == At(s.mem, active, i);
      assert active == boot || SameKernel(s.mem, boot, s.mem, active, slots);
    }
    assert SameKernel(s'.mem, boot, s'.mem, r, s'.kernelSlots);
  }

  lemma SharedGrown(s: Snap, s': Snap, boot: Frame, r: Frame)
    requires Inv(s) && BootTable(s, boot) && KernelShared(s, boot) && Grows(s, s', r, {}) && r in s.spaces
    ensures KernelShared(s', boot)
  {
    GrowsSame(s, s', r, {});
    BootActive(s, boot);
    BootGrown(s, s', boot, r);
    hide Inv, Grows, BootTable, KernelView;
    forall x | x in s'.spaces
      ensures SameKernel(s'.mem, boot, s'.mem, x, s'.kernelSlots)
    {
      RootFrame(s, x);
      if x != r {
        OtherSpace(s, s', x, r, {});
        SameFrame(s.mem, s'.mem, boot, x, s.kernelSlots);
      } else {
        SameThrough(s.mem, s'.mem, boot, r, s.kernelSlots);
      }
    }
  }

  lemma BootGrown(s: Snap, s': Snap, boot: Frame, r: Frame)
    requires Inv(s) && BootTable(s, boot) && Grows(s, s', r, {})
    ensures boot in s.mem && boot in s'.mem && s'.mem[boot] == s.mem[boot]
  {
    BootActive(s, boot);
    assert boot !in s.owner;
    hide SpacesOk, FlatOf;
  }

  lemma SameThrough(mem: Mem, mem': Mem, boot: Frame, r: Frame, slots: set<nat>)
    requires SameKernel(mem, boot, mem, r, slots) && SameKernel(mem, r, mem', r, slots)
    requires boot in mem && boot in mem' && mem'[boot] == mem[boot] && r in mem
    ensures SameKernel(mem', boot, mem', r, slots)
  {
    forall i: nat | i in slots && i < ENTRIES && r in mem'
      ensures At(mem', r, i) == At(mem', boot, i)
    {
      assert At(mem, r, i) == At(mem, boot, i) && At(mem', r, i) == At(mem, r, i);
    }
  }

  lemma SharedRemoved(s: Snap, s': Snap, boot: Frame, r: Frame)
    requires Reclaimed(s, s', r) && KernelShared(s, boot)
    ensures KernelShared(s', boot)
  {
    hide FlatOf, Loose, SameKernel;
  }

  lemma StoreShared(s: Snap, live: seq<Frame>, boot: Frame, pool: set<Frame>, slots: set<nat>, r: Frame, va: nat, b: byte)
    requires Inv(s) && Sound(s, live, boot, pool, slots) && AllPlain(s) && r in s.spaces && KernelShared(s, boot)
    requires va < USER_END && PathOf(va)[0] !in slots && Translate(s.mem, r, va).Some?
    ensures KernelShared(s.(mem := Store(s.mem, r, va, b)), boot)
  {
    hide Inv, FlatOf, PathOf, Translate, Store, KernelView, AllPlain, SameKernel;
    TranslatedMapped(s, r, va, slots, live, boot, pool);
    MappedByte(s, r, va);
    FlatLength(s, r, PathOf(va));
    var f, mem' := FrameAt(s, r, va), Store(s.mem, r, va, b);
    assert f != boot;
    forall x | x in s.spaces
      ensures SameKernel(mem', boot, mem', x, s.kernelSlots)
    {
      RootFrame(s, x);
      NodeFrame(s, x, []);
      SameFrame(s.mem, mem', boot, x, s.kernelSlots);
    }
  }

  /** In the kernel slots every live space translates as the boot table does: a switch never loses the kernel. */
  lemma KernelTranslates(s: Snap, boot: Frame, r: Frame, va: nat)
    requires Inv(s) && KernelShared(s, boot) && r in s.spaces && PathOf(va)[0] in s.kernelSlots
    ensures Translate(s.mem, r, va) == Translate(s.mem, boot, va)
  {
    RootFrame(s, r);
    hide Inv;
    var i := PathOf(va)[0];
    assert SameKernel(s.mem, boot, s.mem, r, s.kernelSlots);
    assert At(s.mem, r, i) == At(s.mem, boot, i);
  }

  /** Whatever a process had mapped in its stack area is not returned when it is reaped: slot 255, not slot 0. */
  lemma StackIsLeaked(s: Snap, s': Snap, root: Frame, va: nat)
    requires Inv(s) && Mapped(s, root, va) && Reclaimed(s, s', root)
    requires USER_STACK_TOP - USER_STACK_SIZE <= va < USER_STACK_TOP + PAGE_SIZE
    ensures FrameAt(s, root, va) in Leaked(s')
  {
    hide Inv, FlatOf, PathOf, Translate, Load, Store;
    StackSlot(va);
    MappedByte(s, root, va);
    FlatPages(s, root, PathOf(va));
    LeakedOutside(s, s', root, PathOf(va));
  }

  lemma StackSlot(va: nat)
    requires USER_STACK_TOP - USER_STACK_SIZE <= va < USER_STACK_TOP + PAGE_SIZE
    ensures PathOf(va)[0] == 255
  {
  }

  lemma LeakedOutside(s: Snap, s': Snap, root: Frame, p: Path)
    requires Reclaimed(s, s', root) && p in s.spaces[root] && |p| > 0 && p[0] != 0
    ensures s.spaces[root][p] in Leaked(s')
  {
    hide FlatOf;
    assert !([0] <= p);
    assert p !in Slot0(s.spaces[root]);
  }
}
