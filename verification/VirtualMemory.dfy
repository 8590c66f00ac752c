/** Virtual addresses: splitting into table indices, translation and user-level loads and stores. */
module VirtualMemory {
  import opened Ownership
  import opened Paging
  import opened Spaces
  import opened Wrappers

  /** User space is the lower half of the canonical addresses. */
  const USER_END: nat := 0x8000_0000_0000

  /** The index split at the head of `translate`. */
  function PathOf(va: nat): (p: Path)
    ensures |p| == 4
  {
    [va / 0x80_0000_0000 % 512, va / 0x4000_0000 % 512, va / 0x20_0000 % 512, va / 0x1000 % 512]
  }

  /** The recomposition `l4 << 39 | l3 << 30 | l2 << 21 | l1 << 12` of `clone_user_space`. */
  function PageOf(p: Path): nat
    requires |p| == 4
  {
    0x80_0000_0000 * p[0] + 0x4000_0000 * p[1] + 0x20_0000 * p[2] + 0x1000 * p[3]
  }

  /** Shifting the fields into place and or-ing them is adding them: the fields do not overlap. */
  lemma OrIsPlus(a: bv64, b: bv64, c: bv64, d: bv64)
    requires a < 512 && b < 512 && c < 512 && d < 512
    ensures (a << 39) | (b << 30) | (c << 21) | (d << 12)
         == a * 0x80_0000_0000 + b * 0x4000_0000 + c * 0x20_0000 + d * 0x1000
  {
  }

  /** Recomposing indices and splitting them again is the identity. */
  lemma SplitOfPage(p: Path)
    requires |p| == 4 && PathOk(p)
    ensures PageOf(p) < USER_END && PageOf(p) % PAGE_SIZE == 0
    ensures PathOf(PageOf(p)) == p
  {
    SplitFields(p[0], p[1], p[2], p[3]);
  }

  lemma SplitFields(a: nat, b: nat, c: nat, d: nat)
    requires a < 256 && b < 512 && c < 512 && d < 512
    ensures var va := 0x80_0000_0000 * a + 0x4000_0000 * b + 0x20_0000 * c + 0x1000 * d;
            && va < USER_END && va % PAGE_SIZE == 0
            && va / 0x80_0000_0000 % 512 == a && va / 0x4000_0000 % 512 == b
            && va / 0x20_0000 % 512 == c && va / 0x1000 % 512 == d
  {
    var ab := b + 512 * a;
    var abc := c + 512 * ab;
    Digit(d, abc);
    Digit(c, ab);
    Digit(b, a);
    ShiftSteps(0x1000 * (d + 512 * abc));
  }

  lemma Digit(low: nat, high: nat)
    requires low < 512
    ensures (low + 512 * high) / 512 == high && (low + 512 * high) % 512 == low
  {
  }

  /** Shifting right in steps of nine bits. */
  lemma ShiftSteps(va: nat)
    ensures va / 0x20_0000 == va / 0x1000 / 512
    ensures va / 0x4000_0000 == va / 0x20_0000 / 512
    ensures va / 0x80_0000_0000 == va / 0x4000_0000 / 512
  {
    Shift21(va);
    Shift30(va);
    Shift39(va);
  }

  lemma Shift21(va: nat)
    ensures va / 0x20_0000 == va / 0x1000 / 512
  {
  }

  lemma Shift30(va: nat)
    ensures va / 0x4000_0000 == va / 0x20_0000 / 512
  {
  }

  lemma Shift39(va: nat)
    ensures va / 0x80_0000_0000 == va / 0x4000_0000 / 512
  {
  }

  /** Splitting a user address and recomposing it gives its page. */
  lemma PageOfSplit(va: nat)
    requires va < USER_END
    ensures PathOk(PathOf(va))
    ensures PageOf(PathOf(va)) == va / PAGE_SIZE * PAGE_SIZE
  {
    ShiftSteps(va);
  }

  /** Memory that is not there reads as an unused entry. */
  function Read(mem: Mem, f: Frame, i: nat): Entry
    requires i < ENTRIES
  {
    if f in mem then At(mem, f, i) else UNUSED
  }

  /** The walk of `AddressSpace::translate`, huge pages included. */
  function Translate(mem: Mem, root: Frame, va: nat): Option<nat> {
    var p := PathOf(va);
    var e4 := Read(mem, root, p[0]);
    if !e4.flags.present then None else
    var e3 := Read(mem, e4.frame, p[1]);
    if !e3.flags.present then None
    else if e3.flags.huge then Some(e3.frame * PAGE_SIZE + va % 0x4000_0000) else
    var e2 := Read(mem, e3.frame, p[2]);
    if !e2.flags.present then None
    else if e2.flags.huge then Some(e2.frame * PAGE_SIZE + va % 0x20_0000) else
    var e1 := Read(mem, e2.frame, p[3]);
    if !e1.flags.present then None else Some(e1.frame * PAGE_SIZE + va % PAGE_SIZE)
  }

  ghost predicate NoHuge(depth: nat, c: FrameContent) {
    forall i: nat | i < ENTRIES :: c[i].flags.present && (depth == 0 ==> c[i].flags.user) ==> !c[i].flags.huge
  }

  /** No table at or below `p` maps a huge page. */
  ghost predicate Plain(s: Snap, r: Frame, p: Path) {
    r in s.spaces
    && forall q | q in s.spaces[r] && p <= q && |q| < 3 ::
      s.spaces[r][q] in s.mem && NoHuge(|q|, s.mem[s.spaces[r][q]])
  }

  /** One level of the walk, against the tree. */
  lemma WalkStep(s: Snap, r: Frame, p: Path, i: nat)
    requires Inv(s) && r in s.spaces && p in s.spaces[r] && |p| < 4 && i < ENTRIES
    requires |p| == 0 ==> i !in s.kernelSlots
    ensures var e := Read(s.mem, s.spaces[r][p], i);
            && (Child(p, i) in s.spaces[r] ==> e.flags.present && e.frame == s.spaces[r][Child(p, i)])
            && (Child(p, i) in s.spaces[r] && 1 <= |p| <= 2 ==> !e.flags.huge)
            && (Child(p, i) !in s.spaces[r] ==> !e.flags.present || (1 <= |p| <= 2 && e.flags.huge))
  {
    LiveWf(s, r);
    NodeFrame(s, r, p);
    RootFrame(s, r);
    hide SpacesOk, OwnersOk, FreeOk;
    assert NodeOk(s.mem, s.spaces[r], p);
    assert SlotOk(At(s.mem, s.spaces[r][p], i), s.spaces[r], p, i);
  }

  /** `translate` finds exactly the pages of the flat view (and huge pages, when there are any). */
  lemma TranslateFlat(s: Snap, r: Frame, va: nat)
    requires Inv(s) && r in s.spaces && va < USER_END && PathOf(va)[0] !in s.kernelSlots
    ensures PathOf(va) in FlatOf(s, r) ==>
              Translate(s.mem, r, va) == Some(FlatOf(s, r)[PathOf(va)].frame * PAGE_SIZE + va % PAGE_SIZE)
    ensures Plain(s, r, []) && PathOf(va) !in FlatOf(s, r) ==> Translate(s.mem, r, va) == None
  {
    hide Inv, FlatOf, Plain, PathOf, PageOf;
    var p := PathOf(va);
    PageOfSplit(va);
    RootFrame(s, r);
    var t := s.spaces[r];
    FlatPages(s, r, p);
    assert Child([], p[0]) == p[..1] && Child(p[..1], p[1]) == p[..2];
    assert Child(p[..2], p[2]) == p[..3] && Child(p[..3], p[3]) == p;
    hide Child;
    WalkStep(s, r, [], p[0]);
    if p[..1] in t {
      WalkStep(s, r, p[..1], p[1]);
      if p[..2] in t {
        WalkStep(s, r, p[..2], p[2]);
        if p[..3] in t {
          WalkStep(s, r, p[..3], p[3]);
        } else {
          PlainStep(s, r, p[..2], p[2]);
          PathsBelow(s, r, p);
        }
      } else {
        PlainStep(s, r, p[..1], p[1]);
        PathsBelow(s, r, p);
      }
    } else {
      PathsBelow(s, r, p);
    }
  }

  /** What user code may do at an address. */
  datatype Rights = Rights(user: bool, writable: bool)

  function Meet(r: Rights, e: Entry): Rights { Rights(r.user && e.flags.user, r.writable && e.flags.writable) }

  /** The processor's rule: a right must be granted at every level of the walk. */
  function Access(mem: Mem, root: Frame, va: nat): Option<Rights> {
    var p := PathOf(va);
    var e4 := Read(mem, root, p[0]);
    if !e4.flags.present then None else
    var e3 := Read(mem, e4.frame, p[1]);
    var r3 := Meet(Meet(Rights(true, true), e4), e3);
    if !e3.flags.present then None else if e3.flags.huge then Some(r3) else
    var e2 := Read(mem, e3.frame, p[2]);
    if !e2.flags.present then None else if e2.flags.huge then Some(Meet(r3, e2)) else
    var e1 := Read(mem, e2.frame, p[3]);
    if !e1.flags.present then None else Some(Meet(Meet(r3, e2), e1))
  }

  /** At a mapped page the upper levels take nothing away: the rights are those of the leaf entry. */
  lemma AccessFlat(s: Snap, r: Frame, va: nat)
    requires Inv(s) && r in s.spaces && va < USER_END && PathOf(va)[0] !in s.kernelSlots && PathOf(va) in FlatOf(s, r)
    ensures var e := FlatOf(s, r)[PathOf(va)];
            Access(s.mem, r, va) == Some(Rights(e.flags.user, e.flags.writable))
  {
    hide Inv, FlatOf, PathOf, PageOf, Graded;
    var p := PathOf(va);
    PageOfSplit(va);
    RootFrame(s, r);
    var t := s.spaces[r];
    FlatPages(s, r, p);
    PathsBelow(s, r, p);
    assert Child([], p[0]) == p[..1] && Child(p[..1], p[1]) == p[..2];
    assert Child(p[..2], p[2]) == p[..3] && Child(p[..3], p[3]) == p;
    LeafRead(s, r, p);
    GradeStep(s, r, [], p[0], p[1]);
    GradeStep(s, r, p[..1], p[1], p[2]);
    GradeStep(s, r, p[..2], p[2], p[3]);
    hide Child;
    WalkStep(s, r, [], p[0]);
    WalkStep(s, r, p[..1], p[1]);
    WalkStep(s, r, p[..2], p[2]);
    WalkStep(s, r, p[..3], p[3]);
  }

  lemma GradeStep(s: Snap, r: Frame, p: Path, i: nat, j: nat)
    requires Inv(s) && r in s.spaces && p in s.spaces[r] && i < ENTRIES && j < ENTRIES
    requires Child(p, i) in s.spaces[r] && Child(Child(p, i), j) in s.spaces[r]
    ensures Allows(Read(s.mem, s.spaces[r][p], i), Read(s.mem, s.spaces[r][Child(p, i)], j))
  {
    LiveWf(s, r);
    NodeFrame(s, r, p);
    NodeFrame(s, r, Child(p, i));
    hide SpacesOk, OwnersOk, FreeOk, Wf;
  }

  lemma LeafRead(s: Snap, r: Frame, p: Path)
    requires Inv(s) && r in s.spaces && |p| == 4 && p in FlatOf(s, r)
    ensures p in s.spaces[r] && p[..3] in s.spaces[r] && p[3] < ENTRIES && FlatOf(s, r)[p] == Read(s.mem, s.spaces[r][p[..3]], p[3])
  {
    PathsBelow(s, r, p);
    FlatPages(s, r, p);
    LiveWf(s, r);
    NodeFrame(s, r, p[..3]);
    hide SpacesOk, OwnersOk, FreeOk;
    assert Parent(p) == p[..3];
    assert PathOk(p);
  }

  lemma PlainStep(s: Snap, r: Frame, p: Path, i: nat)
    requires Inv(s) && r in s.spaces && p in s.spaces[r] && 1 <= |p| < 3 && i < ENTRIES
    ensures Plain(s, r, []) ==> var e := Read(s.mem, s.spaces[r][p], i); e.flags.present ==> !e.flags.huge
  {
    if Plain(s, r, []) {
      assert [] <= p;
    }
  }

  /** A mapped page has all its tables. */
  lemma PathsBelow(s: Snap, r: Frame, p: Path)
    requires Inv(s) && r in s.spaces && |p| == 4
    ensures p in s.spaces[r] ==> p[..3] in s.spaces[r] && p[..2] in s.spaces[r] && p[..1] in s.spaces[r]
  {
    if p in s.spaces[r] {
      LiveWf(s, r);
      assert Parent(p) == p[..3];
      assert Parent(p[..3]) == p[..2];
      assert Parent(p[..2]) == p[..1];
    }
  }

  /** The flat view lists the depth-4 nodes of the tree, each on its own frame. */
  lemma FlatPages(s: Snap, r: Frame, p: Path)
    requires Inv(s) && r in s.spaces && |p| == 4
    ensures p in FlatOf(s, r) <==> p in s.spaces[r]
    ensures p in FlatOf(s, r) ==>
              && FlatOf(s, r)[p].frame == s.spaces[r][p] && FlatOf(s, r)[p].flags.present
              && s.spaces[r][p] in s.owner && s.owner[s.spaces[r][p]] == Owner(r, p)
              && s.spaces[r][p] in s.mem && s.spaces[r][p] in s.pool && s.spaces[r][p] !in s.free
  {
    LiveWf(s, r);
    if p in s.spaces[r] {
      NodeFrame(s, r, p);
      LeafIsLink(s.mem, s.spaces[r], p);
    }
  }

  /** Popping a frame, hanging a table or page, and adding flags bring in no huge page. */
  lemma PopPlain(s: Snap, r: Frame)
    requires Inv(s) && |s.free| > 0
    ensures var f := s.free[|s.free| - 1];
            var s' := s.(mem := s.mem[f := ZeroFrame()], free := s.free[..|s.free| - 1]);
            Plain(s, r, []) ==> Plain(s', r, [])
  {
    hide Inv, NoHuge, FlatOf, Grows;
    if Plain(s, r, []) {
      var f := s.free[|s.free| - 1];
      forall q | q in s.spaces[r] && |q| < 3
        ensures s.spaces[r][q] != f
      {
        NodeFrame(s, r, q);
      }
    }
  }

  lemma HangPlain(s: Snap, root: Frame, p: Path, i: nat, f: Frame, e: Entry)
    requires CanHang(s, root, p, i, f, e) && (|p| < 3 ==> !e.flags.huge)
    ensures Plain(s, root, []) ==> Plain(Hang(s, root, p, i, f, e), root, [])
  {
    if Plain(s, root, []) {
      NodeFrame(s, root, p);
      InvInjective(s, root);
      hide Inv;
      var s' := Hang(s, root, p, i, f, e);
      forall q | q in s'.spaces[root] && [] <= q && |q| < 3
        ensures s'.spaces[root][q] in s'.mem && NoHuge(|q|, s'.mem[s'.spaces[root][q]])
      {
        if q in s.spaces[root] {
          assert [] <= q;
          assert NoHuge(|q|, s.mem[s.spaces[root][q]]);
        }
      }
    }
  }

  lemma RelinkPlain(s: Snap, root: Frame, p: Path, i: nat, e: Entry)
    requires Inv(s) && root in s.spaces && p in s.spaces[root] && |p| < 3 && i < ENTRIES && !e.flags.huge
    ensures s.spaces[root][p] in s.mem
    ensures Plain(s, root, []) ==> Plain(s.(mem := SetEntry(s.mem, s.spaces[root][p], i, e)), root, [])
  {
    NodeFrame(s, root, p);
    if Plain(s, root, []) {
      InvInjective(s, root);
      hide Inv;
      var mem' := SetEntry(s.mem, s.spaces[root][p], i, e);
      forall q | q in s.spaces[root] && [] <= q && |q| < 3
        ensures s.spaces[root][q] in mem' && NoHuge(|q|, mem'[s.spaces[root][q]])
      {
        assert NoHuge(|q|, s.mem[s.spaces[root][q]]);
      }
    }
  }
}
