/** Loads and stores through translated addresses: forked spaces start equal and stay private. */
module Isolation {
  import opened Bytes
  import opened Fork
  import opened Ownership
  import opened Paging
  import opened Spaces
  import opened VirtualMemory
  import opened Wrappers

  /** The byte at a physical address. */
  function PhysByte(mem: Mem, pa: nat): Option<byte> {
    if pa / PAGE_SIZE in mem then Some(FrameBytes(mem[pa / PAGE_SIZE])[pa % PAGE_SIZE]) else None
  }

  function Load(mem: Mem, root: Frame, va: nat): Option<byte> {
    var pa := Translate(mem, root, va);
    if pa.Some? then PhysByte(mem, pa.value) else None
  }

  function PutByte(mem: Mem, f: Frame, k: nat, b: byte): Mem
    requires f in mem && k < PAGE_SIZE
  {
    mem[f := ByteFrame(FrameBytes(mem[f])[k := b])]
  }

  function Store(mem: Mem, root: Frame, va: nat, b: byte): Mem {
    var pa := Translate(mem, root, va);
    if pa.Some? && pa.value / PAGE_SIZE in mem
    then PutByte(mem, pa.value / PAGE_SIZE, pa.value % PAGE_SIZE, b)
    else mem
  }

  /** `va` lies on a page mapped in `root`. */
  ghost predicate Mapped(s: Snap, root: Frame, va: nat) {
    root in s.spaces && va < USER_END && PathOf(va) in FlatOf(s, root)
  }

  ghost function FrameAt(s: Snap, root: Frame, va: nat): Frame
    requires Mapped(s, root, va)
  {
    FlatOf(s, root)[PathOf(va)].frame
  }

  lemma MappedByte(s: Snap, root: Frame, va: nat)
    requires Inv(s) && Mapped(s, root, va)
    ensures var f := FrameAt(s, root, va);
            && f in s.mem && f in s.pool && f in s.owner && s.owner[f] == Owner(root, PathOf(va))
            && Translate(s.mem, root, va) == Some(f * PAGE_SIZE + va % PAGE_SIZE)
            && Load(s.mem, root, va) == Some(FrameBytes(s.mem[f])[va % PAGE_SIZE])
            && forall b: byte :: Store(s.mem, root, va, b) == PutByte(s.mem, f, va % PAGE_SIZE, b)
  {
    hide Inv, FlatOf, PathOf, Translate;
    FlatPages(s, root, PathOf(va));
    SlotsAreUser(s, root, PathOf(va));
    TranslateFlat(s, root, va);
    var f := FrameAt(s, root, va);
    assert (f * PAGE_SIZE + va % PAGE_SIZE) / PAGE_SIZE == f;
  }

  /** A store through a mapped page keeps the whole ownership invariant and every page table. */
  lemma StoreKeeps(s: Snap, root: Frame, va: nat, b: byte)
    requires Inv(s) && Mapped(s, root, va)
    ensures var s' := s.(mem := Store(s.mem, root, va, b));
            && Inv(s') && s'.mem.Keys == s.mem.Keys
            && forall r | r in s.spaces :: FlatOf(s', r) == FlatOf(s, r)
  {
    hide Inv, FlatOf, PathOf, Translate, Store;
    MappedByte(s, root, va);
    var f := FrameAt(s, root, va);
    FlatLength(s, root, PathOf(va));
    WritePageKeeps(s, f, ByteFrame(FrameBytes(s.mem[f])[va % PAGE_SIZE := b]));
  }

  /** Distinct mapped bytes, in one space or in two, are distinct bytes of memory. */
  lemma DistinctBytes(s: Snap, r: Frame, va: nat, r': Frame, va': nat)
    requires Inv(s) && Mapped(s, r, va) && Mapped(s, r', va')
    requires FrameAt(s, r, va) == FrameAt(s, r', va') && va % PAGE_SIZE == va' % PAGE_SIZE
    ensures r == r' && va == va'
  {
    hide Inv, FlatOf, PathOf, Translate, Load, Store, PageOf;
    MappedByte(s, r, va);
    MappedByte(s, r', va');
    PageOfSplit(va);
    PageOfSplit(va');
  }

  /** What a load sees after a store: the new byte at the same address of the same space, nothing else. */
  lemma StoreThenLoad(s: Snap, r: Frame, va: nat, b: byte, r': Frame, va': nat)
    requires Inv(s) && Mapped(s, r, va) && Mapped(s, r', va')
    ensures var mem' := Store(s.mem, r, va, b);
            Load(mem', r', va') == if r' == r && va' == va then Some(b) else Load(s.mem, r', va')
  {
    hide Inv, FlatOf, PathOf, Translate, Load, Store, PageOf;
    var s' := s.(mem := Store(s.mem, r, va, b));
    StoreKeeps(s, r, va, b);
    MappedByte(s, r, va);
    MappedByte(s, r', va');
    MappedByte(s', r', va');
    var f, f' := FrameAt(s, r, va), FrameAt(s, r', va');
    if f == f' && va % PAGE_SIZE == va' % PAGE_SIZE {
      DistinctBytes(s, r, va, r', va');
    }
  }

  /** A store of `b` at `va` through the space `root`. */
  datatype Write = Write(root: Frame, va: nat, b: byte)

  ghost function StoreOne(s: Snap, w: Write): Snap {
    if Mapped(s, w.root, w.va) then s.(mem := Store(s.mem, w.root, w.va, w.b)) else s
  }

  /** Stores by any spaces, in any order; stores to unmapped pages fault and change nothing. */
  ghost function StoreAll(s: Snap, writes: seq<Write>): Snap
    decreases |writes|
  {
    if writes == [] then s else StoreAll(StoreOne(s, writes[0]), writes[1..])
  }

  /** The stores that went through `r`. */
  function Only(writes: seq<Write>, r: Frame): seq<Write> {
    if writes == [] then [] else (if writes[0].root == r then [writes[0]] else []) + Only(writes[1..], r)
  }

  /** Two states with the same spaces that show `r` the same bytes. */
  ghost predicate LooksSame(s: Snap, s': Snap, r: Frame) {
    && Inv(s) && Inv(s') && (forall va :: Mapped(s', r, va) <==> Mapped(s, r, va))
    && forall va | Mapped(s, r, va) :: Load(s'.mem, r, va) == Load(s.mem, r, va)
  }

  lemma StoreOneKeeps(s: Snap, w: Write, r: Frame, va: nat)
    requires Inv(s)
    ensures Inv(StoreOne(s, w)) && (Mapped(StoreOne(s, w), r, va) <==> Mapped(s, r, va))
    ensures Mapped(s, r, va) ==>
              Load(StoreOne(s, w).mem, r, va)
              == if w.root == r && w.va == va then Some(w.b) else Load(s.mem, r, va)
  {
    hide Inv, FlatOf, PathOf, Translate, Load, Store;
    if Mapped(s, w.root, w.va) {
      StoreKeeps(s, w.root, w.va, w.b);
      if Mapped(s, r, va) {
        StoreThenLoad(s, w.root, w.va, w.b, r, va);
      }
    }
  }

  /** A store through `r` in both states, or one through another space in the first only. */
  lemma LooksSameAfter(s: Snap, s': Snap, r: Frame, w: Write)
    requires LooksSame(s, s', r)
    ensures LooksSame(StoreOne(s, w), if w.root == r then StoreOne(s', w) else s', r)
  {
    hide Inv, Mapped, Load, StoreOne;
    var t, t' := StoreOne(s, w), if w.root == r then StoreOne(s', w) else s';
    forall va
      ensures (Mapped(t', r, va) <==> Mapped(t, r, va)) && (Mapped(t, r, va) ==> Load(t'.mem, r, va) == Load(t.mem, r, va))
    {
      StoreOneKeeps(s, w, r, va);
      StoreOneKeeps(s', w, r, va);
    }
    StoreOneKeeps(s, w, r, 0);
    StoreOneKeeps(s', w, r, 0);
  }

  lemma {:induction false} StoresAgree(s: Snap, s': Snap, r: Frame, writes: seq<Write>)
    requires LooksSame(s, s', r)
    ensures LooksSame(StoreAll(s, writes), StoreAll(s', Only(writes, r)), r)
    decreases |writes|
  {
    if writes != [] {
      hide LooksSame, StoreOne;
      var w, rest := writes[0], writes[1..];
      LooksSameAfter(s, s', r, w);
      StoresAgree(StoreOne(s, w), if w.root == r then StoreOne(s', w) else s', r, rest);
      if w.root == r {
        assert ([w] + Only(rest, r))[1..] == Only(rest, r);
      } else {
        assert [] + Only(rest, r) == Only(rest, r);
      }
    }
  }

  /** However all processes write, in whatever order: what one of them reads depends on its own stores only. */
  lemma WritesArePrivate(s: Snap, writes: seq<Write>, r: Frame, va: nat)
    requires Inv(s) && Mapped(s, r, va)
    ensures Inv(StoreAll(s, writes)) && Mapped(StoreAll(s, writes), r, va)
    ensures Load(StoreAll(s, writes).mem, r, va) == Load(StoreAll(s, Only(writes, r)).mem, r, va)
    ensures Only(writes, r) == [] ==> Load(StoreAll(s, writes).mem, r, va) == Load(s.mem, r, va)
  {
    hide Inv, FlatOf, PathOf, Load, Store;
    StoresAgree(s, s, r, writes);
    StoresMapped(s, Only(writes, r), r, va);
  }

  lemma {:induction false} StoresMapped(s: Snap, writes: seq<Write>, r: Frame, va: nat)
    requires Inv(s) && Mapped(s, r, va)
    ensures Inv(StoreAll(s, writes)) && Mapped(StoreAll(s, writes), r, va)
    decreases |writes|
  {
    if writes != [] {
      StoreOneKeeps(s, writes[0], r, va);
      hide Inv, Mapped, StoreOne;
      StoresMapped(StoreOne(s, writes[0]), writes[1..], r, va);
    }
  }

  /** Right after `fork` the child reads at every user page what the parent reads and used to read. */
  lemma ForkedLoadsAgree(s: Snap, s': Snap, src: Frame, child: Frame, va: nat)
    requires Inv(s) && Inv(s') && src in s.spaces && Forked(s, s', src, child)
    requires Mapped(s, src, va) && FlatOf(s, src)[PathOf(va)].flags.user
    ensures Mapped(s', child, va) && Mapped(s', src, va)
    ensures Load(s'.mem, child, va) == Load(s'.mem, src, va) == Load(s.mem, src, va)
    ensures FrameAt(s', child, va) != FrameAt(s', src, va)
  {
    hide Inv, FlatOf, PathOf, Translate, Load, Plain;
    UntouchedFlat(s, s', src);
    assert PageCopied(s', src, child, PathOf(va));
    MappedByte(s, src, va);
    MappedByte(s', src, va);
    MappedByte(s', child, va);
    UntouchedMem(s, s', FrameAt(s, src, va));
  }

  lemma UntouchedMem(s: Snap, s': Snap, f: Frame)
    requires Inv(s) && Untouched(s, s') && f in s.owner
    ensures f in s.mem && f in s'.mem && s'.mem[f] == s.mem[f]
  {
    hide FlatOf, SpacesOk;
  }

  /** And it can read nothing else: a user address is readable in the child exactly when its page was user in the parent. */
  lemma ForkedReadable(s: Snap, s': Snap, src: Frame, child: Frame, va: nat)
    requires Inv(s) && Inv(s') && src in s.spaces && Forked(s, s', src, child)
    requires va < USER_END && PathOf(va)[0] !in s'.kernelSlots
    ensures Load(s'.mem, child, va).Some? <==> Mapped(s, src, va) && FlatOf(s, src)[PathOf(va)].flags.user
  {
    hide Inv, FlatOf, PathOf, Translate, Plain;
    TranslateFlat(s', child, va);
    if PathOf(va) in FlatOf(s', child) {
      MappedByte(s', child, va);
    }
  }

  /** And with the rights the parent has there, at every level of the walk. */
  lemma ForkedAccess(s: Snap, s': Snap, src: Frame, child: Frame, va: nat)
    requires Inv(s) && Inv(s') && src in s.spaces && Forked(s, s', src, child)
    requires Mapped(s, src, va) && FlatOf(s, src)[PathOf(va)].flags.user
    ensures Access(s'.mem, child, va) == Access(s'.mem, src, va) == Access(s.mem, src, va)
  {
    hide Inv, FlatOf, PathOf, Access, Plain;
    UntouchedFlat(s, s', src);
    assert PageCopied(s', src, child, PathOf(va));
    FlatPages(s, src, PathOf(va));
    SlotsAreUser(s, src, PathOf(va));
    UntouchedSlots(s, s');
    AccessFlat(s, src, va);
    AccessFlat(s', src, va);
    AccessFlat(s', child, va);
  }

  lemma UntouchedSlots(s: Snap, s': Snap)
    requires Untouched(s, s')
    ensures s'.kernelSlots == s.kernelSlots
  {
  }
}
