/** `map_elf_segment`, `map_user_stack` and `load_elf_into_new_space`. */
module ElfLoader {
  import opened AddressSpace
  import opened Bytes
  import opened ElfFormat
  import opened ElfImage
  import opened Fork
  import opened Isolation
  import opened Loading
  import opened Ownership
  import opened Paging
  import opened Spaces
  import opened VirtualMemory
  import opened Wrappers

  const USER_STACK_TOP: nat := 0x7FFF_0000_0000
  const USER_STACK_SIZE: nat := 0x1_0000

  /** Segment flag bit 1 makes the pages writable; they are always present and user accessible. */
  function SegmentFlags(g: Segment): Flags {
    NO_FLAGS.(present := true, user := true, writable := g.flags / 2 % 2 == 1)
  }

  /** The page is mapped and holds `b`, its old contents if it was mapped before. */
  ghost predicate Prepared(s: Snap, s1: Snap, root: Frame, page: nat, b: seq<byte>) {
    && |b| == PAGE_SIZE
    && (forall p :: p in FlatOf(s1, root) <==> p in FlatOf(s, root) || p == PagePath(page))
    && PageIs(s1, root, page, b)
    && (if PagePath(page) in FlatOf(s, root) then PageIs(s, root, page, b) else b == Zeros(PAGE_SIZE))
    && (forall n: nat, c: seq<byte> | n < USER_PAGES && n != page && PageIs(s, root, n, c) :: PageIs(s1, root, n, c))
  }

  lemma PreparedReuse(s: Snap, root: Frame, page: nat)
    requires Inv(s) && root in s.spaces && page < USER_PAGES && PagePath(page) in FlatOf(s, root)
    ensures var f := FlatOf(s, root)[PagePath(page)].frame;
            f in s.mem && Prepared(s, s, root, page, FrameBytes(s.mem[f]))
  {
    hide Inv, FlatOf, PathOf;
    PagePathOk(page);
    FlatPages(s, root, PagePath(page));
  }

  lemma PreparedFresh(s: Snap, s1: Snap, root: Frame, page: nat, e: Entry)
    requires Inv(s) && root in s.spaces && page < USER_PAGES && PagePath(page) !in FlatOf(s, root)
    requires Grows(s, s1, root, {}) && FlatOf(s1, root) == FlatOf(s, root)[PagePath(page) := e]
    requires e.frame in s1.mem && s1.mem[e.frame] == ZeroFrame()
    ensures Prepared(s, s1, root, page, Zeros(PAGE_SIZE))
  {
    hide Inv, FlatOf, PathOf, FrameBytes, Grows;
    ZeroFrameBytes();
    forall n: nat, c: seq<byte> | n < USER_PAGES && n != page && PageIs(s, root, n, c)
      ensures PageIs(s1, root, n, c)
    {
      PageKept(s, s1, root, n);
      PagePathInjective(n, page);
    }
  }

  lemma ZeroFrameBytes()
    ensures FrameBytes(ZeroFrame()) == Zeros(PAGE_SIZE)
  {
    forall e | e in ZeroFrame()
      ensures LeEncode(EntryWord(e), 8) == Zeros(8)
    {
      ZeroWord(e);
    }
    hide EntryWord, LeEncode;
    ZeroWordsToBytes(ZeroFrame());
  }

  lemma PageKept(s: Snap, s1: Snap, root: Frame, n: nat)
    requires Inv(s) && root in s.spaces && n < USER_PAGES && PagePath(n) in FlatOf(s, root)
    requires Grows(s, s1, root, {})
    ensures var f := FlatOf(s, root)[PagePath(n)].frame;
            f in s.mem && f in s1.mem && s1.mem[f] == s.mem[f]
  {
    hide Inv, FlatOf, PathOf;
    PagePathOk(n);
    FlatPages(s, root, PagePath(n));
  }

  /** The copy into the page's frame completes the iteration. */
  lemma CopyCompletes(s: Snap, s1: Snap, root: Frame, file: seq<byte>, g: Segment, page: nat, b: seq<byte>)
    requires Inv(s1) && root in s1.spaces && page < USER_PAGES && Visits(g, page)
    requires Prepared(s, s1, root, page, b)
    ensures var f := FlatOf(s1, root)[PagePath(page)].frame;
            && f in s1.owner && s1.owner[f] == Owner(root, PagePath(page)) && f in s1.pool && f in s1.mem
            && var s2 := s1.(mem := s1.mem[f := ByteFrame(PageAfter(b, file, g, page))]);
            Inv(s2) && FlatOf(s2, root) == FlatOf(s1, root) && PageLoaded(s, s2, root, file, g, page)
  {
    hide Inv, FlatOf, PathOf, FrameBytes, ByteFrame, PageAfter;
    PagePathOk(page);
    FlatPages(s1, root, PagePath(page));
    var f := FlatOf(s1, root)[PagePath(page)].frame;
    var c := ByteFrame(PageAfter(b, file, g, page));
    WritePageKeeps(s1, f, c);
    var s2 := s1.(mem := s1.mem[f := c]);
    forall n: nat, d: seq<byte> | n < USER_PAGES && n != page && PageIs(s, root, n, d)
      ensures PageIs(s2, root, n, d)
    {
      OtherFrame(s1, root, n, page);
    }
  }

  lemma OtherFrame(s: Snap, root: Frame, n: nat, m: nat)
    requires Inv(s) && root in s.spaces && n < USER_PAGES && m < USER_PAGES && n != m
    requires PagePath(n) in FlatOf(s, root) && PagePath(m) in FlatOf(s, root)
    ensures FlatOf(s, root)[PagePath(n)].frame != FlatOf(s, root)[PagePath(m)].frame
  {
    hide Inv, FlatOf, PathOf;
    PagePathOk(n);
    PagePathOk(m);
    FlatPages(s, root, PagePath(n));
    FlatPages(s, root, PagePath(m));
    PagePathInjective(n, m);
  }

  lemma TranslatePage(s: Snap, root: Frame, page: nat)
    requires Inv(s) && root in s.spaces && Plain(s, root, [])
    requires page < USER_PAGES && PagePath(page)[0] !in s.kernelSlots
    ensures Translate(s.mem, root, page * PAGE_SIZE)
         == if PagePath(page) in FlatOf(s, root) then Some(FlatOf(s, root)[PagePath(page)].frame * PAGE_SIZE) else None
  {
    hide Inv, FlatOf, PathOf, Translate, Plain;
    TranslateFlat(s, root, page * PAGE_SIZE);
  }

  /** Reuse the frame of an already mapped page (segments may share pages) or map a fresh zeroed one. */
  method ObtainFrame(m: Machine, root: Frame, g: Segment, page: nat) returns (r: Option<Frame>)
    requires m.Valid() && root in m.s.spaces && Plain(m.s, root, [])
    requires page < USER_PAGES && PagePath(page)[0] !in m.s.kernelSlots
    modifies m`mem, m`top, m`s
    ensures m.Valid() && root in m.s.spaces && Plain(m.s, root, []) && Confined(old(m.s), m.s, root)
    ensures r.Some? ==>
              && r.value in m.mem && Prepared(old(m.s), m.s, root, page, FrameBytes(m.mem[r.value]))
              && PagePath(page) in FlatOf(m.s, root) && FlatOf(m.s, root)[PagePath(page)].frame == r.value
              && PageAdded(old(m.s), m.s, root, page, g.flags / 2 % 2 == 1)
    ensures r.None? ==> m.top == 0
  {
    hide Inv, FlatOf, PathOf, FrameBytes, Translate, Plain, Confined, Prepared, Grows;
    ghost var s0 := m.s;
    TranslatePage(m.s, root, page);
    var tr := Translate(m.mem, root, page * PAGE_SIZE);
    if tr.Some? {
      PreparedReuse(s0, root, page);
      ConfinedRefl(s0, root);
      return Some(tr.value / PAGE_SIZE);
    }
    var a := m.MapUserPageAlloc(root, page * PAGE_SIZE, SegmentFlags(g));
    GrowsConfined(s0, m.s, root);
    GrowsSame(s0, m.s, root, {});
    if a.Err? {
      return None;
    }
    ZeroFrameBytes();
    PreparedFresh(s0, m.s, root, page, Entry(SegmentFlags(g), a.value));
    return Some(a.value);
  }

  /** One page of a segment: get its frame, then copy the file data that belongs there. */
  method MapElfPage(m: Machine, root: Frame, file: seq<byte>, g: Segment, page: nat) returns (ok: bool)
    requires m.Valid() && root in m.s.spaces && Plain(m.s, root, [])
    requires Visits(g, page) && page < USER_PAGES && PagePath(page)[0] !in m.s.kernelSlots
    modifies m`mem, m`top, m`s
    ensures m.Valid() && Plain(m.s, root, []) && Confined(old(m.s), m.s, root)
    ensures ok ==> PageLoaded(old(m.s), m.s, root, file, g, page)
    ensures ok ==> PageAdded(old(m.s), m.s, root, page, g.flags / 2 % 2 == 1)
    ensures !ok ==> m.top == 0
  {
    hide Inv, FlatOf, PathOf, FrameBytes, ByteFrame, Plain, Confined, PageLoaded, Prepared, CopiesInto;
    hide Visits, FileStart, FileEnd, DstOffset;
    ghost var s0 := m.s;
    var frame := ObtainFrame(m, root, g, page);
    if frame.None? {
      return false;
    }
    ghost var s1 := m.s;
    PagePathOk(page);
    var b := FrameBytes(m.mem[frame.value]);
    CopyCompletes(s0, s1, root, file, g, page, b);
    if CopiesInto(file, g, page) {
      CopiesFits(file, g, page);
      var src, len, dst := g.offset + FileStart(g, page), FileEnd(g, page) - FileStart(g, page), DstOffset(g, page);
      b := b[..dst] + file[src..src + len] + b[dst + len..];
    }
    WritePlain(s1, root, frame.value, ByteFrame(b));
    WriteConfined(s1, root, frame.value, ByteFrame(b));
    m.mem := m.mem[frame.value := ByteFrame(b)];
    m.s := m.s.(mem := m.mem);
    ConfinedTrans(s0, s1, m.s, root);
    return true;
  }

  lemma CopiesFits(file: seq<byte>, g: Segment, page: nat)
    requires Visits(g, page) && CopiesInto(file, g, page)
    ensures 0 <= FileEnd(g, page) - FileStart(g, page)
    ensures DstOffset(g, page) + (FileEnd(g, page) - FileStart(g, page)) <= PAGE_SIZE
    ensures g.offset + FileEnd(g, page) <= |file|
  {
    CopyFits(g, page);
  }

  /** Every page of the segment is a user page outside the kernel's PML4 slots. */
  ghost predicate InUserSpace(g: Segment, kernelSlots: set<nat>) {
    && EndPage(g) < USER_PAGES
    && (forall page: nat | Visits(g, page) :: PagePath(page)[0] !in kernelSlots)
  }

  /** The page loop of `map_elf_segment`. */
  method MapElfSegment(m: Machine, root: Frame, file: seq<byte>, segs: seq<Segment>, k: nat) returns (ok: bool)
    requires m.Valid() && root in m.s.spaces && Plain(m.s, root, [])
    requires k < |segs| && InUserSpace(segs[k], m.s.kernelSlots)
    requires Holds(m.s, root, file, segs, k, 0) && RightsOk(m.s, root, segs)
    modifies m`mem, m`top, m`s
    ensures m.Valid() && Plain(m.s, root, []) && Confined(old(m.s), m.s, root)
    ensures ok ==> Holds(m.s, root, file, segs, k + 1, 0) && RightsOk(m.s, root, segs)
    ensures !ok ==> m.top == 0
  {
    hide Inv, FlatOf, PathOf, Plain, Confined, PageLoaded, Holds, PageOk, RightsOk, PageAdded, FirstVisit, Writable;
    var g := segs[k];
    ghost var s0 := m.s;
    ConfinedRefl(s0, root);
    if g.memsz == 0 {
      HoldsLeave(m.s, root, file, segs, k, 0);
      return true;
    }
    HoldsEnter(m.s, root, file, segs, k);
    var page := g.vaddr / PAGE_SIZE;
    var last := (g.vaddr + g.memsz) / PAGE_SIZE;
    while page <= last
      invariant StartPage(g) <= page <= EndPage(g) + 1
      invariant m.Valid() && Plain(m.s, root, []) && Confined(s0, m.s, root)
      invariant Holds(m.s, root, file, segs, k, page) && RightsOk(m.s, root, segs)
      decreases last + 1 - page
    {
      ghost var s1 := m.s;
      ConfinedSame(s0, s1, root);
      ok := MapElfPage(m, root, file, g, page);
      ConfinedTrans(s0, s1, m.s, root);
      if !ok {
        return false;
      }
      HoldsFirst(s1, root, file, segs, k, page);
      if FirstVisit(segs, k, page) {
        FirstWrites(segs, k, page);
      }
      RightsAdded(s1, m.s, root, segs, page, g.flags / 2 % 2 == 1);
      HoldsPage(s1, m.s, root, file, segs, k, page);
      page := page + 1;
    }
    HoldsLeave(m.s, root, file, segs, k, page);
    return true;
  }

  lemma ConfinedSame(s: Snap, s': Snap, root: Frame)
    requires Confined(s, s', root)
    ensures s'.spaces.Keys == s.spaces.Keys && s'.kernelSlots == s.kernelSlots && s'.mem.Keys == s.mem.Keys
    ensures root in s.spaces ==> SameKernel(s.mem, root, s'.mem, root, s.kernelSlots)
  {
  }

  predicate InStack(page: nat) {
    (USER_STACK_TOP - USER_STACK_SIZE) / PAGE_SIZE <= page <= USER_STACK_TOP / PAGE_SIZE
  }

  /** The finished space: segment pages hold the image, stack pages are zero, nothing else is mapped. */
  ghost predicate PageDone(s: Snap, root: Frame, file: seq<byte>, segs: seq<Segment>, bound: nat, n: nat) {
    && (PagePath(n) in FlatOf(s, root) <==> InPages(segs, n) || (InStack(n) && n < bound))
    && (InStack(n) && n < bound ==> !InPages(segs, n) && PageIs(s, root, n, Zeros(PAGE_SIZE)))
    && (InPages(segs, n) ==> exists b | |b| == PAGE_SIZE && PageIs(s, root, n, b) :: PageWants(file, segs, |segs|, 0, n, b))
  }

  ghost predicate Done(s: Snap, root: Frame, file: seq<byte>, segs: seq<Segment>, bound: nat) {
    forall n: nat | n < USER_PAGES :: PageDone(s, root, file, segs, bound, n)
  }

  lemma DoneStart(s: Snap, root: Frame, file: seq<byte>, segs: seq<Segment>, bound: nat)
    requires Holds(s, root, file, segs, |segs|, 0)
    requires bound == (USER_STACK_TOP - USER_STACK_SIZE) / PAGE_SIZE
    ensures Done(s, root, file, segs, bound)
  {
    hide FlatOf, PathOf, PageIs, PageWants;
    forall n: nat | n < USER_PAGES
      ensures PageDone(s, root, file, segs, bound, n)
    {
      assert PageOk(s, root, file, segs, |segs|, 0, n);
      assert segs[..|segs|] == segs;
    }
  }

  lemma DonePage(s: Snap, s': Snap, root: Frame, file: seq<byte>, segs: seq<Segment>, page: nat, e: Entry)
    requires Inv(s) && root in s.spaces && page < USER_PAGES && InStack(page)
    requires Done(s, root, file, segs, page) && PagePath(page) !in FlatOf(s, root)
    requires Grows(s, s', root, {}) && FlatOf(s', root) == FlatOf(s, root)[PagePath(page) := e]
    requires e.frame in s'.mem && s'.mem[e.frame] == ZeroFrame()
    ensures Done(s', root, file, segs, page + 1)
  {
    hide Inv, FlatOf, PathOf, PageIs, PageWants, Grows;
    PreparedFresh(s, s', root, page, e);
    var next := page + 1;
    forall n: nat | n < USER_PAGES
      ensures PageDone(s', root, file, segs, next, n)
    {
      assert PageDone(s, root, file, segs, page, n);
      if n != page {
        PagePathInjective(n, page);
      }
    }
  }

  /** A stack page that is mapped already is one a segment has mapped. */
  lemma DoneFree(s: Snap, root: Frame, file: seq<byte>, segs: seq<Segment>, page: nat)
    requires Done(s, root, file, segs, page) && page < USER_PAGES
    ensures PagePath(page) in FlatOf(s, root) <==> InPages(segs, page)
  {
    assert PageDone(s, root, file, segs, page, page);
  }

  lemma StackAdded(s: Snap, s': Snap, root: Frame, segs: seq<Segment>, page: nat, e: Entry)
    requires page < USER_PAGES && RightsOk(s, root, segs) && PagePath(page) !in FlatOf(s, root) && !InPages(segs, page)
    requires FlatOf(s', root) == FlatOf(s, root)[PagePath(page) := e]
    requires e.flags == NO_FLAGS.(present := true, user := true, writable := true)
    ensures RightsOk(s', root, segs)
  {
    hide FlatOf, PathOf, RightsOk;
    RightsAdded(s, s', root, segs, page, true);
  }

  /** `map_user_stack`: seventeen zeroed pages ending at the page of `USER_STACK_TOP`. */
  method MapUserStack(m: Machine, root: Frame, ghost file: seq<byte>, ghost segs: seq<Segment>) returns (r: Result<nat>)
    requires m.Valid() && root in m.s.spaces && Plain(m.s, root, [])
    requires Holds(m.s, root, file, segs, |segs|, 0) && RightsOk(m.s, root, segs)
    requires forall page: nat | InStack(page) :: PagePath(page)[0] !in m.s.kernelSlots
    modifies m`mem, m`top, m`s
    ensures m.Valid() && Plain(m.s, root, []) && Confined(old(m.s), m.s, root)
    ensures r.Ok? ==> r.value == USER_STACK_TOP && Done(m.s, root, file, segs, USER_STACK_TOP / PAGE_SIZE + 1)
    ensures r.Ok? ==> RightsOk(m.s, root, segs)
    ensures r.Err? ==> m.top == 0 || exists page: nat | InStack(page) :: InPages(segs, page)
  {
    hide Inv, FlatOf, PathOf, Plain, Confined, Holds, Done, Grows, RightsOk, PageAdded, InPages;
    ghost var s0 := m.s;
    ConfinedRefl(s0, root);
    var flags := NO_FLAGS.(present := true, writable := true, user := true);
    var page := (USER_STACK_TOP - USER_STACK_SIZE) / PAGE_SIZE;
    DoneStart(m.s, root, file, segs, page);
    while page <= USER_STACK_TOP / PAGE_SIZE
      invariant (USER_STACK_TOP - USER_STACK_SIZE) / PAGE_SIZE <= page <= USER_STACK_TOP / PAGE_SIZE + 1
      invariant m.Valid() && Plain(m.s, root, []) && Confined(s0, m.s, root)
      invariant Done(m.s, root, file, segs, page) && RightsOk(m.s, root, segs)
    {
      ghost var s1 := m.s;
      ConfinedSame(s0, s1, root);
      DoneFree(s1, root, file, segs, page);
      assert InStack(page);
      var a := m.MapUserPageAlloc(root, page * PAGE_SIZE, flags);
      GrowsConfined(s1, m.s, root);
      ConfinedTrans(s0, s1, m.s, root);
      if a.Err? {
        return Err("failed to map user stack page");
      }
      DonePage(s1, m.s, root, file, segs, page, Entry(flags, a.value));
      StackAdded(s1, m.s, root, segs, page, Entry(flags, a.value));
      page := page + 1;
    }
    return Ok(USER_STACK_TOP);
  }

  /** What the finished space shows the program at every user address. */
  lemma DoneMeaning(s: Snap, root: Frame, file: seq<byte>, segs: seq<Segment>, a: nat)
    requires Inv(s) && root in s.spaces && Plain(s, root, []) && WellFormed(file, segs)
    requires Done(s, root, file, segs, USER_STACK_TOP / PAGE_SIZE + 1)
    requires a < USER_END && PathOf(a)[0] !in s.kernelSlots
    ensures forall i | 0 <= i < |segs| && segs[i].vaddr <= a < segs[i].vaddr + segs[i].filesz ::
              Load(s.mem, root, a) == Some(file[segs[i].offset + (a - segs[i].vaddr)])
    ensures (forall i | 0 <= i < |segs| :: !(segs[i].vaddr <= a < segs[i].vaddr + segs[i].filesz)) ==>
              Load(s.mem, root, a)
              == if InPages(segs, a / PAGE_SIZE) || InStack(a / PAGE_SIZE) then Some(0) else None
  {
    hide Inv, FlatOf, PathOf, FrameBytes, Translate, Plain, Image;
    var n := a / PAGE_SIZE;
    assert PageDone(s, root, file, segs, USER_STACK_TOP / PAGE_SIZE + 1, n);
    SamePagePath(a);
    TranslateFlat(s, root, a);
    ImageMeaning(file, segs, a);
    forall i | 0 <= i < |segs| && segs[i].vaddr <= a < segs[i].vaddr + segs[i].filesz
      ensures InPages(segs, n)
    {
      CoversPlain(file, segs[i], a);
    }
    if PathOf(a) in FlatOf(s, root) {
      MappedByte(s, root, a);
      if InPages(segs, n) {
        var b :| |b| == PAGE_SIZE && PageIs(s, root, n, b) && PageWants(file, segs, |segs|, 0, n, b);
        assert b[a % PAGE_SIZE] == Want(file, segs, |segs|, 0, n * PAGE_SIZE + a % PAGE_SIZE);
        assert segs[..|segs|] == segs;
      }
    }
  }

  /** And what it may do there: read any mapped page, and write to the stack and to the pages whose first segment says so. */
  lemma LoadedAccess(s: Snap, root: Frame, segs: seq<Segment>, a: nat)
    requires Inv(s) && root in s.spaces && RightsOk(s, root, segs)
    requires a < USER_END && PathOf(a)[0] !in s.kernelSlots && PathOf(a) in FlatOf(s, root)
    ensures Access(s.mem, root, a) == Some(Rights(true, Writable(segs, a / PAGE_SIZE)))
  {
    hide Inv, FlatOf, PathOf, Access, Writable;
    SamePagePath(a);
    AccessFlat(s, root, a);
  }

  /** All addresses of a page share its table indices. */
  lemma SamePagePath(a: nat)
    ensures PathOf(a) == PagePath(a / PAGE_SIZE)
  {
    var b := a / PAGE_SIZE * PAGE_SIZE;
    ShiftSteps(a);
    ShiftSteps(b);
    assert a / 0x1000 == b / 0x1000;
  }

  /** `load_elf_into_new_space`. A failed load drops the new space, whose frames are then leaked. */
  method LoadElf(m: Machine, file: seq<byte>, active: Frame) returns (r: Result<(Frame, nat, nat)>)
    requires m.Valid() && active !in m.s.free && KernelView(m.s.mem, active, m.s.kernelSlots)
    requires forall page: nat | InStack(page) :: PagePath(page)[0] !in m.s.kernelSlots
    requires ParseElf(file).Ok? ==>
               forall i | 0 <= i < |ParseElf(file).value.1| :: InUserSpace(ParseElf(file).value.1[i], m.s.kernelSlots)
    modifies m`mem, m`top, m`s
    ensures m.Valid()
    ensures r.Ok? ==>
              && ParseElf(file).Ok? && r.value.1 == ParseElf(file).value.0 && r.value.2 == USER_STACK_TOP
              && r.value.0 !in old(m.s.spaces) && m.s.spaces.Keys == old(m.s.spaces.Keys) + {r.value.0}
              && Plain(m.s, r.value.0, [])
              && Done(m.s, r.value.0, file, ParseElf(file).value.1, USER_STACK_TOP / PAGE_SIZE + 1)
              && RightsOk(m.s, r.value.0, ParseElf(file).value.1)
              && SameKernel(old(m.s.mem), active, m.s.mem, r.value.0, m.s.kernelSlots)
    ensures r.Err? ==> m.s.spaces == old(m.s.spaces)
    ensures r.Err? ==>
              || ParseElf(file).Err? || m.top == 0
              || exists page: nat | InStack(page) :: InPages(ParseElf(file).value.1, page)
    ensures Untouched(old(m.s), m.s)
  {
    hide Inv, FlatOf, PathOf, Plain, Confined, Done, KernelView, Untouched, ParseElf, InUserSpace, InStack, RightsOk, InPages;
    hide SameKernel;
    var parsed := ParseElfSegments(file);
    UntouchedRefl(m.s);
    if parsed.Err? {
      return Err(parsed.error);
    }
    var segs := parsed.value.1;
    ghost var s0 := m.s;
    var a := m.NewUser(active);
    if a.Err? {
      return Err(a.error);
    }
    var root := a.value;
    ghost var s1 := m.s;
    UntouchedSlots(s0, s1);
    var top := LoadInto(m, root, file, segs);
    UntouchedConfined(s0, s1, m.s, root);
    if top.Err? {
      DropSpaceKeeps(m.s, root);
      UntouchedDrop(s0, m.s, root);
      m.s := DropSpace(m.s, root);
      return Err(top.error);
    }
    RootFrame(s1, root);
    ConfinedSame(s1, m.s, root);
    KernelOnward(s0, s1, m.s, active, root);
    return Ok((root, parsed.value.0, top.value));
  }

  /** The segment loop of `load_elf_into_new_space` and the stack, in an empty space. */
  method LoadInto(m: Machine, root: Frame, file: seq<byte>, segs: seq<Segment>) returns (r: Result<nat>)
    requires m.Valid() && root in m.s.spaces && Plain(m.s, root, []) && FlatOf(m.s, root) == map[]
    requires forall page: nat | InStack(page) :: PagePath(page)[0] !in m.s.kernelSlots
    requires forall i | 0 <= i < |segs| :: InUserSpace(segs[i], m.s.kernelSlots)
    modifies m`mem, m`top, m`s
    ensures m.Valid() && Plain(m.s, root, []) && Confined(old(m.s), m.s, root)
    ensures r.Ok? ==> r.value == USER_STACK_TOP && Done(m.s, root, file, segs, USER_STACK_TOP / PAGE_SIZE + 1)
    ensures r.Ok? ==> RightsOk(m.s, root, segs)
    ensures r.Err? ==> m.top == 0 || exists page: nat | InStack(page) :: InPages(segs, page)
  {
    hide Inv, FlatOf, PathOf, Plain, Confined, Holds, Done, InUserSpace, InStack, RightsOk, InPages;
    ghost var s1 := m.s;
    HoldsStart(m.s, root, file, segs);
    RightsStart(m.s, root, segs);
    ConfinedRefl(m.s, root);
    var k := 0;
    while k < |segs|
      invariant 0 <= k <= |segs|
      invariant m.Valid() && Plain(m.s, root, []) && Confined(s1, m.s, root)
      invariant Holds(m.s, root, file, segs, k, 0) && RightsOk(m.s, root, segs)
    {
      ghost var s2 := m.s;
      ConfinedSame(s1, s2, root);
      var ok := MapElfSegment(m, root, file, segs, k);
      ConfinedTrans(s1, s2, m.s, root);
      if !ok {
        return Err("failed to map ELF page");
      }
      k := k + 1;
    }
    ghost var s3 := m.s;
    ConfinedSame(s1, s3, root);
    r := MapUserStack(m, root, file, segs);
    ConfinedTrans(s1, s3, m.s, root);
  }

  lemma RightsStart(s: Snap, root: Frame, segs: seq<Segment>)
    requires FlatOf(s, root) == map[]
    ensures RightsOk(s, root, segs)
  {
  }

  /** Loading into the new space does not show in the old ones. */
  lemma UntouchedConfined(s: Snap, s1: Snap, s2: Snap, root: Frame)
    requires Inv(s1) && Untouched(s, s1) && root !in s.spaces && root in s.free
    requires s1.spaces == s.spaces[root := EmptyTree(root)]
    requires Confined(s1, s2, root)
    ensures Untouched(s, s2) && s2.spaces.Keys == s.spaces.Keys + {root}
  {
    hide FlatOf, SpacesOk, FreeOk;
    PrefixElements(s.free, s1.free);
    forall f | f in s.mem && f !in s.free
      ensures s2.mem[f] == s.mem[f]
    {
      assert !(f in s1.owner && s1.owner[f].root == root);
    }
    forall r | r in s.spaces
      ensures FlatOf(s2, r) == FlatOf(s, r)
    {
      ConfinedFlat(s1, s2, root, r);
    }
  }

  lemma ConfinedFlat(s: Snap, s': Snap, root: Frame, r: Frame)
    requires Inv(s) && Confined(s, s', root) && r in s.spaces && r != root
    ensures FlatOf(s', r) == FlatOf(s, r)
  {
    hide Inv, FlatOf, NodeOk;
    LiveWf(s, r);
    forall p | p in s.spaces[r]
      ensures s.spaces[r][p] in s.mem && s.spaces[r][p] in s'.mem
      ensures s'.mem[s.spaces[r][p]] == s.mem[s.spaces[r][p]]
    {
      NodeFrame(s, r, p);
    }
    WfKept(s, s', r);
  }
}
