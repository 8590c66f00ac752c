/** Who owns which physical frame: the invariant of the allocator and all live address spaces. */
module Ownership {
  import opened Paging
  import opened Spaces

  const MAX_FRAMES: nat := 32768

  datatype Owner = Owner(root: Frame, path: Path)

  /** A snapshot of memory, the live spaces (by PML4 frame) and the free stack. */
  datatype Snap = Snap(
    mem: Mem,
    spaces: map<Frame, Tree>,
    owner: map<Frame, Owner>,
    free: seq<Frame>,
    pool: set<Frame>,        // the frames handed to the allocator at boot
    kernelSlots: set<nat>)   // PML4 slots shared with the kernel

  ghost predicate KernelView(mem: Mem, f: Frame, kernelSlots: set<nat>) {
    && f in mem
    && (forall i: nat | 0 < i < ENTRIES ::
          At(mem, f, i).flags.present && !At(mem, f, i).flags.user <==> i in kernelSlots)
  }

  ghost predicate SpacesOk(s: Snap) {
    forall r | r in s.spaces :: SpaceOk(s.mem, s.spaces[r], r, s.kernelSlots)
  }

  ghost predicate SpaceOk(mem: Mem, t: Tree, r: Frame, kernelSlots: set<nat>) {
    Wf(mem, t) && t[[]] == r && KernelView(mem, r, kernelSlots) && Graded(mem, t)
  }

  /** `owner` is the inverse of all the trees at once, so no frame is used twice. */
  ghost predicate OwnersOk(s: Snap) {
    && (forall r, p | r in s.spaces && p in s.spaces[r] ::
          s.spaces[r][p] in s.owner && s.owner[s.spaces[r][p]] == Owner(r, p))
    && (forall f | f in s.owner ::
          && s.owner[f].root in s.spaces
          && s.owner[f].path in s.spaces[s.owner[f].root]
          && s.spaces[s.owner[f].root][s.owner[f].path] == f)
    && s.owner.Keys <= s.pool
  }

  ghost predicate FreeOk(s: Snap) {
    && (forall i | 0 <= i < |s.free| :: s.free[i] in s.pool && s.free[i] !in s.owner)
    && (forall i, j | 0 <= i < j < |s.free| :: s.free[i] != s.free[j])
  }

  ghost predicate PoolOk(s: Snap) {
    && s.pool <= s.mem.Keys
    && |s.pool| <= MAX_FRAMES
    && 0 !in s.kernelSlots
  }

  ghost predicate Inv(s: Snap) {
    PoolOk(s) && SpacesOk(s) && OwnersOk(s) && FreeOk(s)
  }

  /** Allocated, but not (or no longer) part of a live space. */
  ghost predicate Loose(s: Snap, f: Frame) {
    f in s.pool && f !in s.owner && f !in s.free
  }

  predicate IsTableOf(s: Snap, f: Frame, root: Frame) {
    f in s.owner && s.owner[f].root == root && |s.owner[f].path| < 4
  }

  /** In every kernel slot, table `f` of `mem'` holds the very word that table `a` holds in `mem`. */
  ghost predicate SameKernel(mem: Mem, a: Frame, mem': Mem, f: Frame, slots: set<nat>) {
    forall i: nat | i in slots && i < ENTRIES && a in mem && f in mem' :: At(mem', f, i) == At(mem, a, i)
  }

  /** What changing `root` by mapping keeps: other spaces, every mapped page, every loose frame, the kernel slots. */
  ghost predicate Grows(s: Snap, s': Snap, root: Frame, extra: set<Frame>) {
    && s'.pool == s.pool && s'.kernelSlots == s.kernelSlots && s'.mem.Keys == s.mem.Keys
    && s'.free <= s.free
    && s'.spaces.Keys == s.spaces.Keys
    && (forall r | r in s.spaces && r != root :: s'.spaces[r] == s.spaces[r])
    && (forall f | f in s.owner :: f in s'.owner && s'.owner[f] == s.owner[f])
    && (forall f | f in s'.owner :: f in s.owner || f in s.free || f in extra)
    && (forall f | f in s.mem && f !in s.free && !IsTableOf(s, f, root) :: s'.mem[f] == s.mem[f])
    && (root in s.spaces ==> SameKernel(s.mem, root, s'.mem, root, s.kernelSlots))
  }

  /** The pages of a space, with their flags and frames. */
  ghost function FlatOf(s: Snap, r: Frame): map<Path, Entry> {
    if r in s.spaces && Placed(s.mem, s.spaces[r]) then Flat(s.mem, s.spaces[r]) else map[]
  }

  lemma GrowsTrans(s: Snap, s': Snap, s'': Snap, root: Frame, extra: set<Frame>)
    requires Grows(s, s', root, {}) && Grows(s', s'', root, extra)
    ensures Grows(s, s'', root, extra)
  {
    PrefixElements(s.free, s'.free);
    assert root in s.spaces ==> SameKernel(s.mem, root, s''.mem, root, s.kernelSlots);
  }

  lemma GrowsRefl(s: Snap, root: Frame)
    ensures Grows(s, s, root, {})
  {
  }

  lemma GrowsWeaken(s: Snap, s': Snap, root: Frame, extra: set<Frame>)
    requires Grows(s, s', root, {})
    ensures Grows(s, s', root, extra)
  {
  }

  /** Mapping elsewhere does not disturb a frame its caller has allocated. */
  lemma GrowsLoose(s: Snap, s': Snap, root: Frame, f: Frame)
    requires Inv(s) && Grows(s, s', root, {}) && Loose(s, f)
    ensures Loose(s', f) && f in s.mem && f in s'.mem && s'.mem[f] == s.mem[f]
  {
    PrefixElements(s.free, s'.free);
  }

  lemma GrowsSame(s: Snap, s': Snap, root: Frame, extra: set<Frame>)
    requires Grows(s, s', root, extra)
    ensures s'.spaces.Keys == s.spaces.Keys && s'.kernelSlots == s.kernelSlots && s'.pool == s.pool
    ensures s'.mem.Keys == s.mem.Keys && (root in s.spaces ==> SameKernel(s.mem, root, s'.mem, root, s.kernelSlots))
  {
  }

  lemma PrefixElements<T>(a: seq<T>, b: seq<T>)
    requires b <= a
    ensures forall x | x in b :: x in a
  {
  }

  lemma InvInjective(s: Snap, r: Frame)
    requires Inv(s) && r in s.spaces
    ensures Injective(s.spaces[r])
  {
    hide Graded;
    var t := s.spaces[r];
    forall p, q | p in t && q in t && t[p] == t[q]
      ensures p == q
    {
      assert s.owner[t[p]] == Owner(r, p);
      assert s.owner[t[q]] == Owner(r, q);
    }
  }

  /** Every node of a live space is a frame of the pool, and the root is the handle itself. */
  lemma NodeFrame(s: Snap, r: Frame, p: Path)
    requires Inv(s) && r in s.spaces && p in s.spaces[r]
    ensures s.spaces[r][p] in s.mem && s.spaces[r][p] in s.pool && s.spaces[r][p] !in s.free
    ensures s.spaces[r][p] in s.owner && s.owner[s.spaces[r][p]] == Owner(r, p)
  {
    hide Graded;
  }

  lemma LiveWf(s: Snap, r: Frame)
    requires Inv(s) && r in s.spaces
    ensures Wf(s.mem, s.spaces[r]) && KernelView(s.mem, r, s.kernelSlots) && Graded(s.mem, s.spaces[r])
  {
    hide Graded;
  }

  lemma RootFrame(s: Snap, r: Frame)
    requires Inv(s) && r in s.spaces
    ensures [] in s.spaces[r] && s.spaces[r][[]] == r && r in s.mem
  {
    hide Graded;
  }

  /** A free stack that misses some frame of the pool is not full. */
  lemma NotFull(s: Snap, f: Frame)
    requires Inv(s) && f in s.pool && f !in s.free
    ensures |s.free| < MAX_FRAMES
  {
    FreeCount(s.free, s.pool - {f});
  }

  lemma {:induction false} FreeCount(free: seq<Frame>, among: set<Frame>)
    requires forall i | 0 <= i < |free| :: free[i] in among
    requires forall i, j | 0 <= i < j < |free| :: free[i] != free[j]
    ensures |free| <= |among|
  {
    if free != [] {
      var last := free[|free| - 1];
      FreeCount(free[..|free| - 1], among - {last});
    }
  }

  /** Popping the free stack and clearing the frame. */
  lemma PopKeeps(s: Snap, root: Frame)
    requires Inv(s) && |s.free| > 0
    ensures var f := s.free[|s.free| - 1];
            f in s.mem && f !in s.free[..|s.free| - 1]
    ensures var f := s.free[|s.free| - 1];
            var s' := s.(mem := s.mem[f := ZeroFrame()], free := s.free[..|s.free| - 1]);
            && Inv(s') && Grows(s, s', root, {}) && Loose(s', f)
            && (forall r | r in s.spaces :: FlatOf(s', r) == FlatOf(s, r))
  {
    hide SpaceOk, FlatOf;
    var f := s.free[|s.free| - 1];
    var s' := s.(mem := s.mem[f := ZeroFrame()], free := s.free[..|s.free| - 1]);
    assert root in s.spaces ==> SameKernel(s.mem, root, s'.mem, root, s.kernelSlots) by {
      if root in s.spaces {
        RootFrame(s, root);
        NodeFrame(s, root, []);
      }
    }
    forall r | r in s.spaces
      ensures SpaceOk(s'.mem, s.spaces[r], r, s.kernelSlots) && FlatOf(s', r) == FlatOf(s, r)
    {
      UntouchedSpace(s, s'.mem, r);
    }
  }

  /** A space none of whose frames changed is still well formed and looks the same. */
  lemma UntouchedSpace(s: Snap, mem': Mem, r: Frame)
    requires Inv(s) && r in s.spaces
    requires mem'.Keys == s.mem.Keys
    requires forall f | f in s.owner && s.owner[f].root == r :: mem'[f] == s.mem[f]
    ensures SpaceOk(mem', s.spaces[r], r, s.kernelSlots)
    ensures forall s': Snap | s'.mem == mem' && r in s'.spaces && s'.spaces[r] == s.spaces[r] :: FlatOf(s', r) == FlatOf(s, r)
  {
    hide Graded;
    WfTables(s.mem, mem', s.spaces[r]);
    GradedTables(s.mem, mem', s.spaces[r]);
    assert KernelView(s.mem, r, s.kernelSlots);
    assert mem'[r] == s.mem[r];
    forall i: nat | 0 < i < ENTRIES
      ensures At(mem', r, i) == At(s.mem, r, i)
    {
    }
  }

  function Extend(t: Tree, p: Path, f: Frame): Tree { t[p := f] }

  /** A snapshot after hanging the loose frame `f` at path `Child(p, i)` of space `root`. */
  function Hang(s: Snap, root: Frame, p: Path, i: nat, f: Frame, e: Entry): Snap
    requires root in s.spaces && p in s.spaces[root] && s.spaces[root][p] in s.mem && i < ENTRIES
  {
    Snap(SetEntry(s.mem, s.spaces[root][p], i, e),
         s.spaces[root := Extend(s.spaces[root], Child(p, i), f)],
         s.owner[f := Owner(root, Child(p, i))],
         s.free, s.pool, s.kernelSlots)
  }

  ghost predicate CanHang(s: Snap, root: Frame, p: Path, i: nat, f: Frame, e: Entry) {
    && Inv(s)
    && root in s.spaces && p in s.spaces[root] && |p| < 4 && i < ENTRIES
    && (|p| == 0 ==> i < 256 && i !in s.kernelSlots)
    && At(s.mem, s.spaces[root][p], i) == UNUSED
    && Loose(s, f) && f in s.mem && (|p| < 3 ==> s.mem[f] == ZeroFrame())
    && IsLink(|p|, e) && e.frame == f && e.flags.user
    && Permits(s.mem, s.spaces[root], p, e)
  }

  ghost predicate TreeKept(t: Tree, t': Tree) {
    forall p | p in t :: p in t' && t'[p] == t[p]
  }

  lemma HangKeeps(s: Snap, root: Frame, p: Path, i: nat, f: Frame, e: Entry)
    requires CanHang(s, root, p, i, f, e)
    ensures var s' := Hang(s, root, p, i, f, e);
            && Inv(s') && Grows(s, s', root, {f})
            && FlatOf(s', root) == (if |p| == 3 then FlatOf(s, root)[Child(p, i) := e] else FlatOf(s, root))
            && TreeKept(s.spaces[root], s'.spaces[root]) && s'.mem[f] == s.mem[f]
    ensures |p| == 3 ==> Child(p, i) !in FlatOf(s, root)
  {
    hide Graded;
    var s' := Hang(s, root, p, i, f, e);
    InvInjective(s, root);
    var t := s.spaces[root];
    assert f !in t.Values;
    AddNode(s.mem, t, p, i, f, e);
    AddNodeFlat(s.mem, t, p, i, f, e);
    GradedAdd(s.mem, t, p, i, f, e);
    HangOwners(s, root, p, i, f, e);
    OnlyRoot(s, root, p);
    HangGrows(s, root, p, i, f, e);
    HangSpaces(s, root, p, i, f, e);
  }

  lemma HangOwners(s: Snap, root: Frame, p: Path, i: nat, f: Frame, e: Entry)
    requires OwnersOk(s) && Loose(s, f) && i < ENTRIES
    requires root in s.spaces && p in s.spaces[root] && s.spaces[root][p] in s.mem
    requires Child(p, i) !in s.spaces[root]
    ensures OwnersOk(Hang(s, root, p, i, f, e))
  {
    var s' := Hang(s, root, p, i, f, e);
    forall r, q | r in s'.spaces && q in s'.spaces[r]
      ensures s'.spaces[r][q] in s'.owner && s'.owner[s'.spaces[r][q]] == Owner(r, q)
    {
      if r != root || q != Child(p, i) {
        assert s.spaces[r][q] in s.owner;
      }
    }
    forall g | g in s'.owner
      ensures s'.owner[g].root in s'.spaces && s'.owner[g].path in s'.spaces[s'.owner[g].root]
      ensures s'.spaces[s'.owner[g].root][s'.owner[g].path] == g
    {
      if g != f {
        assert s.owner[g].path != Child(p, i) || s.owner[g].root != root;
      }
    }
  }

  /** Setting an entry elsewhere leaves the kernel slots of a table alone. */
  lemma EntrySlots(mem: Mem, g: Frame, i: nat, e: Entry, root: Frame, slots: set<nat>)
    requires i < ENTRIES && g in mem && (g == root ==> i !in slots)
    ensures SameKernel(mem, root, SetEntry(mem, g, i, e), root, slots)
  {
  }

  lemma FrameSlots(mem: Mem, mem': Mem, f: Frame, c: FrameContent, root: Frame, slots: set<nat>)
    requires SameKernel(mem, root, mem', root, slots) && f != root
    ensures SameKernel(mem, root, mem'[f := c], root, slots)
  {
  }

  lemma HangGrows(s: Snap, root: Frame, p: Path, i: nat, f: Frame, e: Entry)
    requires OwnersOk(s) && FreeOk(s) && PoolOk(s) && Loose(s, f) && i < ENTRIES
    requires root in s.spaces && p in s.spaces[root] && |p| < 4 && (s.spaces[root][p] == root ==> i !in s.kernelSlots)
    ensures var s' := Hang(s, root, p, i, f, e);
            FreeOk(s') && PoolOk(s') && Grows(s, s', root, {f})
  {
    hide SameKernel, OwnersOk, FreeOk, SetEntry;
    HangOthers(s, root, p, i, f, e);
    SetEntryAt(s.mem, s.spaces[root][p], i, e);
    EntrySlots(s.mem, s.spaces[root][p], i, e, root, s.kernelSlots);
  }

  lemma SetEntryAt(mem: Mem, f: Frame, i: nat, e: Entry)
    requires f in mem && i < ENTRIES
    ensures SetEntry(mem, f, i, e).Keys == mem.Keys && forall g | g in mem && g != f :: SetEntry(mem, f, i, e)[g] == mem[g]
  {
  }

  lemma HangOthers(s: Snap, root: Frame, p: Path, i: nat, f: Frame, e: Entry)
    requires OwnersOk(s) && FreeOk(s) && PoolOk(s) && Loose(s, f) && i < ENTRIES
    requires root in s.spaces && p in s.spaces[root] && |p| < 4
    ensures s.spaces[root][p] in s.mem && IsTableOf(s, s.spaces[root][p], root) && FreeOk(Hang(s, root, p, i, f, e))
    ensures forall g | g in s.owner :: g != f
  {
    assert s.owner[s.spaces[root][p]] == Owner(root, p);
  }

  /** The root table is at the empty path only. */
  lemma OnlyRoot(s: Snap, root: Frame, p: Path)
    requires Inv(s) && root in s.spaces && p in s.spaces[root]
    ensures s.spaces[root][p] == root ==> p == []
  {
    RootFrame(s, root);
    NodeFrame(s, root, []);
    NodeFrame(s, root, p);
  }

  lemma HangSpaces(s: Snap, root: Frame, p: Path, i: nat, f: Frame, e: Entry)
    requires CanHang(s, root, p, i, f, e) && Child(p, i) !in s.spaces[root]
    requires Wf(Hang(s, root, p, i, f, e).mem, s.spaces[root][Child(p, i) := f])
    requires Graded(Hang(s, root, p, i, f, e).mem, s.spaces[root][Child(p, i) := f])
    ensures SpacesOk(Hang(s, root, p, i, f, e))
  {
    hide Graded;
    var s' := Hang(s, root, p, i, f, e);
    var g := s.spaces[root][p];
    assert s.owner[g] == Owner(root, p);
    forall r | r in s'.spaces
      ensures SpaceOk(s'.mem, s'.spaces[r], r, s.kernelSlots)
    {
      if r != root {
        UntouchedSpace(s, s'.mem, r);
      } else {
        RootView(s, root, g, i, e);
      }
    }
  }

  /** Rewriting one entry with a user entry leaves the kernel slots of the root table alone. */
  lemma RootView(s: Snap, root: Frame, g: Frame, i: nat, e: Entry)
    requires Inv(s) && root in s.spaces && g in s.mem && i < ENTRIES
    requires g == root ==> i !in s.kernelSlots && e.flags.user
    ensures KernelView(SetEntry(s.mem, g, i, e), root, s.kernelSlots)
  {
    hide Graded;
    var mem' := SetEntry(s.mem, g, i, e);
    assert KernelView(s.mem, root, s.kernelSlots);
    forall j: nat | 0 < j < ENTRIES
      ensures At(mem', root, j).flags.present && !At(mem', root, j).flags.user <==> j in s.kernelSlots
    {
      assert At(mem', root, j) == if g == root && j == i then e else At(s.mem, root, j);
    }
  }

  /** Adding flags to an existing link. */
  lemma RelinkKeeps(s: Snap, root: Frame, p: Path, i: nat, e: Entry)
    requires Inv(s) && root in s.spaces && p in s.spaces[root] && |p| < 3 && i < ENTRIES
    requires Child(p, i) in s.spaces[root]
    requires IsLink(|p|, e) && e.flags.user && e.frame == At(s.mem, s.spaces[root][p], i).frame
    requires Allows(e, At(s.mem, s.spaces[root][p], i)) && Permits(s.mem, s.spaces[root], p, e)
    ensures var s' := s.(mem := SetEntry(s.mem, s.spaces[root][p], i, e));
            Inv(s') && Grows(s, s', root, {}) && FlatOf(s', root) == FlatOf(s, root)
  {
    LiveWf(s, root);
    NodeFrame(s, root, p);
    hide SpacesOk, NodeOk, KernelView, FreeOk, OwnersOk, Graded, Permits;
    InvInjective(s, root);
    RewriteLink(s.mem, s.spaces[root], p, i, e);
    GradedRelink(s.mem, s.spaces[root], p, i, e);
    UserSlot(s, root, p, i);
    RelinkSpaces(s, root, p, i, e);
    RelinkGrows(s, root, p, i, e);
  }

  lemma RelinkGrows(s: Snap, root: Frame, p: Path, i: nat, e: Entry)
    requires OwnersOk(s) && FreeOk(s) && PoolOk(s)
    requires root in s.spaces && p in s.spaces[root] && |p| < 4 && i < ENTRIES && (s.spaces[root][p] == root ==> i !in s.kernelSlots)
    ensures var s' := s.(mem := SetEntry(s.mem, s.spaces[root][p], i, e));
            OwnersOk(s') && FreeOk(s') && PoolOk(s') && Grows(s, s', root, {})
  {
    hide SameKernel;
    EntrySlots(s.mem, s.spaces[root][p], i, e, root, s.kernelSlots);
    assert s.owner[s.spaces[root][p]] == Owner(root, p);
  }

  /** A link of the root table is not in a kernel slot. */
  lemma UserSlot(s: Snap, root: Frame, p: Path, i: nat)
    requires Inv(s) && root in s.spaces && p in s.spaces[root] && |p| < 3 && i < ENTRIES
    requires Child(p, i) in s.spaces[root]
    ensures s.spaces[root][p] == root ==> i !in s.kernelSlots
  {
    hide Graded;
    if s.spaces[root][p] == root {
      assert s.owner[s.spaces[root][[]]] == Owner(root, []);
      assert NodeOk(s.mem, s.spaces[root], p);
      assert SlotOk(At(s.mem, root, i), s.spaces[root], p, i);
      assert KernelView(s.mem, root, s.kernelSlots);
    }
  }

  lemma RelinkSpaces(s: Snap, root: Frame, p: Path, i: nat, e: Entry)
    requires Inv(s) && root in s.spaces && p in s.spaces[root] && i < ENTRIES && e.flags.user
    requires s.spaces[root][p] == root ==> i !in s.kernelSlots
    requires Wf(SetEntry(s.mem, s.spaces[root][p], i, e), s.spaces[root])
    requires Graded(SetEntry(s.mem, s.spaces[root][p], i, e), s.spaces[root])
    ensures SpacesOk(s.(mem := SetEntry(s.mem, s.spaces[root][p], i, e)))
  {
    hide Graded;
    var g := s.spaces[root][p];
    var mem' := SetEntry(s.mem, g, i, e);
    assert s.owner[g] == Owner(root, p);
    forall r | r in s.spaces
      ensures SpaceOk(mem', s.spaces[r], r, s.kernelSlots)
    {
      if r != root {
        UntouchedSpace(s, mem', r);
      } else {
        RootView(s, root, g, i, e);
      }
    }
  }

  /** Writing a page, or a frame outside every space, changes no table. */
  lemma WritePageKeeps(s: Snap, f: Frame, c: FrameContent)
    requires Inv(s) && f in s.pool
    requires f in s.owner ==> |s.owner[f].path| == 4
    ensures var s' := s.(mem := s.mem[f := c]);
            Inv(s') && forall r | r in s.spaces :: FlatOf(s', r) == FlatOf(s, r)
  {
    hide SpaceOk, FlatOf;
    forall r | r in s.spaces
      ensures SpaceOk(s.mem[f := c], s.spaces[r], r, s.kernelSlots) && FlatOf(s.(mem := s.mem[f := c]), r) == FlatOf(s, r)
    {
      WritePageSpace(s, f, c, r);
    }
  }

  lemma WritePageSpace(s: Snap, f: Frame, c: FrameContent, r: Frame)
    requires Inv(s) && f in s.pool && r in s.spaces
    requires f in s.owner ==> |s.owner[f].path| == 4
    ensures SpaceOk(s.mem[f := c], s.spaces[r], r, s.kernelSlots) && FlatOf(s.(mem := s.mem[f := c]), r) == FlatOf(s, r)
  {
    hide Graded;
    var mem' := s.mem[f := c];
    var t := s.spaces[r];
    forall p | p in t && |p| < 4
      ensures mem'[t[p]] == s.mem[t[p]]
    {
      assert s.owner[t[p]] == Owner(r, p);
    }
    WfTables(s.mem, mem', t);
    GradedTables(s.mem, mem', t);
    assert KernelView(s.mem, r, s.kernelSlots);
    assert mem'[t[[]]] == s.mem[t[[]]];
    forall i: nat | 0 < i < ENTRIES
      ensures At(mem', r, i) == At(s.mem, r, i)
    {
    }
  }

  /** A fresh PML4 may hold only kernel entries, and all of them. */
  ghost predicate FreshRoot(s: Snap, f: Frame) {
    && KernelView(s.mem, f, s.kernelSlots)
    && (forall i: nat | i < ENTRIES ::
          At(s.mem, f, i) == UNUSED || (i != 0 && At(s.mem, f, i).flags.present && !At(s.mem, f, i).flags.user))
  }

  function AddSpace(s: Snap, f: Frame): Snap {
    Snap(s.mem, s.spaces[f := EmptyTree(f)], s.owner[f := Owner(f, [])], s.free, s.pool, s.kernelSlots)
  }

  function EmptyTree(f: Frame): Tree { map[[] := f] }

  lemma AddSpaceKeeps(s: Snap, f: Frame)
    requires Inv(s) && Loose(s, f) && FreshRoot(s, f)
    ensures f !in s.spaces
    ensures var s' := AddSpace(s, f);
            && Inv(s') && FlatOf(s', f) == map[]
            && forall r | r in s.spaces :: FlatOf(s', r) == FlatOf(s, r)
  {
    hide Graded;
    hide Wf, KernelView, Flat, OwnersOk, FreeOk;
    var s' := AddSpace(s, f);
    if f in s.spaces {
      RootFrame(s, f);
      NodeFrame(s, f, []);
    }
    EmptySpace(s, f);
    EmptyGraded(s.mem, f);
    AddSpaceOwners(s, f);
    forall r | r in s.spaces
      ensures FlatOf(s', r) == FlatOf(s, r)
    {
    }
    EmptyFlat(s', f);
  }

  lemma EmptySpace(s: Snap, f: Frame)
    requires FreshRoot(s, f)
    ensures Wf(s.mem, EmptyTree(f)) && KernelView(s.mem, f, s.kernelSlots)
  {
    assert KernelView(s.mem, f, s.kernelSlots);
    hide KernelView;
    var t := EmptyTree(f);
    forall i: nat | i < ENTRIES
      ensures SlotOk(At(s.mem, f, i), t, [], i)
    {
      assert Child([], i) !in t;
    }
    assert NodeOk(s.mem, t, []);
  }

  lemma EmptyFlat(s: Snap, f: Frame)
    requires f in s.spaces && s.spaces[f] == EmptyTree(f)
    ensures FlatOf(s, f) == map[]
  {
  }

  lemma AddSpaceOwners(s: Snap, f: Frame)
    requires OwnersOk(s) && FreeOk(s) && PoolOk(s) && Loose(s, f) && f !in s.spaces
    ensures var s' := AddSpace(s, f);
            OwnersOk(s') && FreeOk(s') && PoolOk(s')
  {
  }

  /** Forgetting a space: its frames become loose. */
  ghost function DropSpace(s: Snap, r: Frame): Snap
    requires r in s.spaces
  {
    Snap(s.mem, s.spaces - {r}, map f | f in s.owner && s.owner[f].root != r :: s.owner[f], s.free, s.pool, s.kernelSlots)
  }

  lemma DropSpaceKeeps(s: Snap, r: Frame)
    requires Inv(s) && r in s.spaces
    ensures var s' := DropSpace(s, r);
            && Inv(s')
            && (forall q | q in s'.spaces :: FlatOf(s', q) == FlatOf(s, q))
            && (forall p | p in s.spaces[r] :: Loose(s', s.spaces[r][p]))
  {
    hide SpaceOk;
    hide Wf, KernelView, Flat;
    var s' := DropSpace(s, r);
    assert SpacesOk(s');
    DropOwners(s, r);
    forall p | p in s.spaces[r]
      ensures Loose(s', s.spaces[r][p])
    {
      NodeFrame(s, r, p);
    }
  }

  lemma DropOwners(s: Snap, r: Frame)
    requires OwnersOk(s) && FreeOk(s) && PoolOk(s) && r in s.spaces
    ensures var s' := DropSpace(s, r);
            OwnersOk(s') && FreeOk(s') && PoolOk(s')
  {
  }

  /** Every space live in `s` is untouched in `s'`: same frames, same pages, same contents. */
  ghost predicate Untouched(s: Snap, s': Snap) {
    && s'.pool == s.pool && s'.kernelSlots == s.kernelSlots && s'.mem.Keys == s.mem.Keys
    && s'.free <= s.free
    && (forall r | r in s.spaces ::
          r in s'.spaces && s'.spaces[r] == s.spaces[r] && FlatOf(s', r) == FlatOf(s, r))
    && (forall f | f in s.mem && f !in s.free :: s'.mem[f] == s.mem[f])
  }
}
