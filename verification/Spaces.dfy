/** The shape of user address spaces in physical memory, as pure definitions. */
module Spaces {
  import opened Paging

  /** Physical frames are named by number: the start address divided by 4096. */
  type Frame = nat
  type Mem = map<Frame, FrameContent>

  /** Indices into successive tables, PML4 first. A path of length 4 names a page, a shorter one a table. */
  type Path = seq<nat>

  /** The frames of one address space: its tables and its pages, by path. */
  type Tree = map<Path, Frame>

  function Child(p: Path, i: nat): Path { p + [i] }

  function Parent(p: Path): Path
    requires |p| > 0
  {
    p[..|p| - 1]
  }

  function At(mem: Mem, f: Frame, i: nat): Entry
    requires f in mem && i < ENTRIES
  {
    mem[f][i]
  }

  function SetEntry(mem: Mem, f: Frame, i: nat, e: Entry): Mem
    requires f in mem && i < ENTRIES
  {
    mem[f := mem[f][i := e]]
  }

  /** Does an entry at this depth lead to a frame of the user part of the space? */
  predicate IsLink(depth: nat, e: Entry) {
    && e.flags.present
    && (depth == 0 ==> e.flags.user)
    && (1 <= depth <= 2 ==> !e.flags.huge)
  }

  /** Entries that are legal without being links: unused ones, shared kernel slots, huge pages. */
  predicate IsInert(depth: nat, i: nat, e: Entry) {
    || e == UNUSED
    || (depth == 0 && i != 0 && e.flags.present && !e.flags.user)
    || (1 <= depth <= 2 && e.flags.present && e.flags.huge)
  }

  ghost predicate SlotOk(e: Entry, t: Tree, p: Path, i: nat) {
    if Child(p, i) in t
    then IsLink(|p|, e) && t[Child(p, i)] == e.frame
    else !IsLink(|p|, e) && IsInert(|p|, i, e)
  }

  ghost predicate NodeOk(mem: Mem, t: Tree, p: Path)
    requires p in t && t[p] in mem
  {
    forall i: nat | i < ENTRIES :: SlotOk(At(mem, t[p], i), t, p, i)
  }

  predicate PathOk(p: Path) {
    && |p| <= 4
    && (forall k | 0 <= k < |p| :: p[k] < ENTRIES)
    && (|p| > 0 ==> p[0] < 256)
  }

  ghost predicate Closed(t: Tree) {
    && [] in t
    && (forall p | p in t :: PathOk(p))
    && (forall p {:trigger Parent(p)} | p in t && |p| > 0 :: Parent(p) in t)
  }

  ghost predicate Placed(mem: Mem, t: Tree) {
    Closed(t) && forall p | p in t :: t[p] in mem
  }

  /** `t` is exactly what a walk of the tables in `mem` finds. */
  ghost predicate Wf(mem: Mem, t: Tree) {
    && Placed(mem, t)
    && (forall p | p in t && |p| < 4 :: NodeOk(mem, t, p))
  }

  /** What may be done through `e'` may be done through `e`: the processor asks every level. */
  predicate Allows(e: Entry, e': Entry) {
    (e'.flags.writable ==> e.flags.writable) && (e'.flags.user ==> e.flags.user)
  }

  /** No entry takes away a right that an entry below it grants. */
  ghost predicate Graded(mem: Mem, t: Tree) {
    forall p: Path, i: nat, j: nat |
      && p in t && Child(p, i) in t && Child(Child(p, i), j) in t && i < ENTRIES && j < ENTRIES
      && t[p] in mem && t[Child(p, i)] in mem ::
      Allows(At(mem, t[p], i), At(mem, t[Child(p, i)], j))
  }

  /** The entry that leads to node `c` has the rights of `e`. */
  ghost predicate Permits(mem: Mem, t: Tree, c: Path, e: Entry) {
    forall p: Path, i: nat | c == Child(p, i) && p in t && t[p] in mem && i < ENTRIES :: Allows(At(mem, t[p], i), e)
  }

  ghost predicate Injective(t: Tree) {
    forall p, q | p in t && q in t && t[p] == t[q] :: p == q
  }

  /** The leaf entry of a mapped page. */
  ghost function Leaf(mem: Mem, t: Tree, p: Path): Entry
    requires Placed(mem, t) && p in t && |p| == 4
  {
    At(mem, t[Parent(p)], p[3])
  }

  /** The flat view of a space: every mapped page with its flags and frame. */
  ghost function Flat(mem: Mem, t: Tree): map<Path, Entry>
    requires Placed(mem, t)
  {
    map p | p in t && |p| == 4 :: Leaf(mem, t, p)
  }

  lemma LeafIsLink(mem: Mem, t: Tree, p: Path)
    requires Wf(mem, t) && p in t && |p| == 4
    ensures Leaf(mem, t, p).frame == t[p] && Leaf(mem, t, p).flags.present
  {
    assert p == Child(Parent(p), p[3]);
    assert NodeOk(mem, t, Parent(p));
  }

  /** Memory outside a space's tables is irrelevant to its shape. */
  lemma WfTables(mem: Mem, mem': Mem, t: Tree)
    requires Wf(mem, t) && mem'.Keys == mem.Keys
    requires forall p | p in t && |p| < 4 :: mem'[t[p]] == mem[t[p]]
    ensures Wf(mem', t)
    ensures Flat(mem', t) == Flat(mem, t)
  {
    forall p | p in t && |p| < 4
      ensures NodeOk(mem', t, p)
    {
      forall i: nat | i < ENTRIES
        ensures SlotOk(At(mem', t[p], i), t, p, i)
      {
        assert SlotOk(At(mem, t[p], i), t, p, i);
      }
    }
  }

  /** Hanging a fresh frame under an unused entry: a zeroed table, or a page. */
  lemma AddNode(mem: Mem, t: Tree, p: Path, i: nat, f: Frame, e: Entry)
    requires Wf(mem, t) && Injective(t)
    requires p in t && |p| < 4 && i < ENTRIES && (|p| == 0 ==> i < 256)
    requires At(mem, t[p], i) == UNUSED
    requires f in mem && f !in t.Values && (|p| < 3 ==> mem[f] == ZeroFrame())
    requires IsLink(|p|, e) && e.frame == f
    ensures Child(p, i) !in t
    ensures var mem' := SetEntry(mem, t[p], i, e);
            var t' := t[Child(p, i) := f];
            Wf(mem', t') && Injective(t')
  {
    var mem' := SetEntry(mem, t[p], i, e);
    var c := Child(p, i);
    var t' := t[c := f];
    assert NodeOk(mem, t, p);
    assert SlotOk(At(mem, t[p], i), t, p, i);
    assert Parent(c) == p;
    assert Closed(t');
    forall q | q in t' && |q| < 4
      ensures NodeOk(mem', t', q)
    {
      AddNodeSlots(mem, t, p, i, f, e, q);
    }
  }

  lemma AddNodeFlat(mem: Mem, t: Tree, p: Path, i: nat, f: Frame, e: Entry)
    requires Placed(mem, t) && Injective(t)
    requires p in t && |p| < 4 && i < ENTRIES && f in mem && f !in t.Values
    requires var mem' := SetEntry(mem, t[p], i, e);
             var t' := t[Child(p, i) := f];
             Child(p, i) !in t && Placed(mem', t')
    ensures var mem' := SetEntry(mem, t[p], i, e);
            var t' := t[Child(p, i) := f];
            Flat(mem', t') == if |p| == 3 then Flat(mem, t)[Child(p, i) := e] else Flat(mem, t)
  {
    var mem' := SetEntry(mem, t[p], i, e);
    var c := Child(p, i);
    var t' := t[c := f];
    hide Placed, Flat, Injective, SetEntry, Child;
    var flat, flat' := Flat(mem, t), Flat(mem', t');
    forall q
      ensures q in flat' <==> q in flat || (|p| == 3 && q == c)
      ensures q in flat' ==> flat'[q] == if |p| == 3 && q == c then e else flat[q]
    {
      AddNodeAt(mem, t, p, i, f, e, q);
    }
  }

  lemma AddNodeAt(mem: Mem, t: Tree, p: Path, i: nat, f: Frame, e: Entry, q: Path)
    requires Placed(mem, t) && Injective(t)
    requires p in t && |p| < 4 && i < ENTRIES && f in mem && f !in t.Values && Child(p, i) !in t
    requires Placed(SetEntry(mem, t[p], i, e), t[Child(p, i) := f])
    ensures var flat, flat' := Flat(mem, t), Flat(SetEntry(mem, t[p], i, e), t[Child(p, i) := f]);
            && (q in flat' <==> q in flat || (|p| == 3 && q == Child(p, i)))
            && (q in flat' ==> flat'[q] == if |p| == 3 && q == Child(p, i) then e else flat[q])
  {
    assert t[p] in mem;
    hide Placed, Flat, Injective;
    FlatAt(mem, t, q);
    FlatAt(SetEntry(mem, t[p], i, e), t[Child(p, i) := f], q);
    ChildParent(p, i);
    if q in Flat(mem, t) {
      AddNodeLeaf(mem, t, p, i, f, e, q);
    }
  }

  lemma FlatAt(mem: Mem, t: Tree, q: Path)
    requires Placed(mem, t)
    ensures q in Flat(mem, t) <==> q in t && |q| == 4
    ensures q in Flat(mem, t) ==>
              && Parent(q) in t && t[Parent(q)] in mem && q[3] < ENTRIES
              && Flat(mem, t)[q] == At(mem, t[Parent(q)], q[3])
  {
  }

  lemma AddNodeLeaf(mem: Mem, t: Tree, p: Path, i: nat, f: Frame, e: Entry, q: Path)
    requires Placed(mem, t) && Injective(t)
    requires p in t && |p| < 4 && i < ENTRIES && f in mem && f !in t.Values && Child(p, i) !in t
    requires q in t && |q| == 4
    ensures Parent(q) in t
    ensures At(SetEntry(mem, t[p], i, e), t[Parent(q)], q[3]) == At(mem, t[Parent(q)], q[3])
  {
    assert q == Child(Parent(q), q[3]);
  }

  lemma AddNodeSlots(mem: Mem, t: Tree, p: Path, i: nat, f: Frame, e: Entry, q: Path)
    requires Wf(mem, t) && Injective(t)
    requires p in t && |p| < 4 && i < ENTRIES
    requires Child(p, i) !in t
    requires f in mem && f !in t.Values && (|p| < 3 ==> mem[f] == ZeroFrame())
    requires IsLink(|p|, e) && e.frame == f
    requires q in t[Child(p, i) := f] && |q| < 4
    ensures NodeOk(SetEntry(mem, t[p], i, e), t[Child(p, i) := f], q)
  {
    var mem' := SetEntry(mem, t[p], i, e);
    var c := Child(p, i);
    var t' := t[c := f];
    forall j: nat | j < ENTRIES
      ensures SlotOk(At(mem', t'[q], j), t', q, j)
    {
      if q == c {
        assert Parent(Child(q, j)) == q;
        assert Child(q, j) !in t;
        assert Child(q, j) != c;
      } else {
        assert NodeOk(mem, t, q);
        assert SlotOk(At(mem, t[q], j), t, q, j);
        ChildInjective(p, i, q, j);
      }
    }
  }

  lemma ChildInjective(p: Path, i: nat, q: Path, j: nat)
    ensures Child(p, i) == Child(q, j) <==> p == q && i == j
  {
    if Child(p, i) == Child(q, j) {
      assert p == Child(p, i)[..|p|];
      assert q == Child(q, j)[..|q|];
      assert Child(p, i)[|p|] == i;
    }
  }

  /** Adding flags to a link entry changes neither the tree nor the mapped pages. */
  lemma RewriteLink(mem: Mem, t: Tree, p: Path, i: nat, e: Entry)
    requires Wf(mem, t) && Injective(t)
    requires p in t && |p| < 3 && i < ENTRIES && Child(p, i) in t
    requires IsLink(|p|, e) && e.frame == At(mem, t[p], i).frame
    ensures var mem' := SetEntry(mem, t[p], i, e);
            Wf(mem', t) && Flat(mem', t) == Flat(mem, t)
  {
    var mem' := SetEntry(mem, t[p], i, e);
    forall q | q in t && |q| < 4
      ensures NodeOk(mem', t, q)
    {
      assert NodeOk(mem, t, q);
      forall j: nat | j < ENTRIES
        ensures SlotOk(At(mem', t[q], j), t, q, j)
      {
        assert SlotOk(At(mem, t[q], j), t, q, j);
      }
    }
  }

  lemma GradedTables(mem: Mem, mem': Mem, t: Tree)
    requires Closed(t) && Graded(mem, t) && mem'.Keys == mem.Keys
    requires forall p | p in t && |p| < 4 :: t[p] in mem && mem'[t[p]] == mem[t[p]]
    ensures Graded(mem', t)
  {
    forall p: Path, i: nat, j: nat |
      && p in t && Child(p, i) in t && Child(Child(p, i), j) in t && i < ENTRIES && j < ENTRIES
      && t[p] in mem' && t[Child(p, i)] in mem'
      ensures Allows(At(mem', t[p], i), At(mem', t[Child(p, i)], j))
    {
      assert PathOk(Child(Child(p, i), j));
      assert Allows(At(mem, t[p], i), At(mem, t[Child(p, i)], j));
    }
  }

  /** Hanging a frame below an entry that has its rights. */
  lemma GradedAdd(mem: Mem, t: Tree, p: Path, i: nat, f: Frame, e: Entry)
    requires Closed(t) && Injective(t) && Graded(mem, t) && Permits(mem, t, p, e)
    requires p in t && i < ENTRIES && t[p] in mem && Child(p, i) !in t && f !in t.Values
    ensures Graded(SetEntry(mem, t[p], i, e), t[Child(p, i) := f])
  {
    var mem', c := SetEntry(mem, t[p], i, e), Child(p, i);
    var t' := t[c := f];
    hide PathOk;
    forall q: Path, a: nat, b: nat |
      && q in t' && Child(q, a) in t' && Child(Child(q, a), b) in t' && a < ENTRIES && b < ENTRIES
      && t'[q] in mem' && t'[Child(q, a)] in mem'
      ensures Allows(At(mem', t'[q], a), At(mem', t'[Child(q, a)], b))
    {
      GradedTriple(mem, t, p, i, f, e, q, a, b);
    }
  }

  lemma GradedTriple(mem: Mem, t: Tree, p: Path, i: nat, f: Frame, e: Entry, q: Path, a: nat, b: nat)
    requires Closed(t) && Injective(t) && Graded(mem, t) && Permits(mem, t, p, e)
    requires p in t && i < ENTRIES && t[p] in mem && Child(p, i) !in t && f !in t.Values && a < ENTRIES && b < ENTRIES
    requires var t' := t[Child(p, i) := f];
             q in t' && Child(q, a) in t' && Child(Child(q, a), b) in t' && t'[q] in mem && t'[Child(q, a)] in mem
    ensures var mem', t' := SetEntry(mem, t[p], i, e), t[Child(p, i) := f];
            Allows(At(mem', t'[q], a), At(mem', t'[Child(q, a)], b))
  {
    ChildParent(q, a);
    ChildParent(Child(q, a), b);
    ChildParent(p, i);
    ChildInjective(p, i, q, a);
    ChildInjective(p, i, Child(q, a), b);
    assert q in t && Child(q, a) in t;
    if Child(Child(q, a), b) != Child(p, i) {
      assert Allows(At(mem, t[q], a), At(mem, t[Child(q, a)], b));
    }
  }

  lemma ChildParent(p: Path, i: nat)
    ensures |Child(p, i)| == |p| + 1 && Parent(Child(p, i)) == p
  {
  }

  /** Adding rights to an entry, if the entry above it has them. */
  lemma GradedRelink(mem: Mem, t: Tree, p: Path, i: nat, e: Entry)
    requires Closed(t) && Injective(t) && Graded(mem, t) && Permits(mem, t, p, e)
    requires p in t && i < ENTRIES && t[p] in mem && Allows(e, At(mem, t[p], i))
    ensures Graded(SetEntry(mem, t[p], i, e), t)
  {
    var mem' := SetEntry(mem, t[p], i, e);
    hide PathOk;
    forall q: Path, a: nat, b: nat |
      && q in t && Child(q, a) in t && Child(Child(q, a), b) in t && a < ENTRIES && b < ENTRIES
      && t[q] in mem' && t[Child(q, a)] in mem'
      ensures Allows(At(mem', t[q], a), At(mem', t[Child(q, a)], b))
    {
      assert Allows(At(mem, t[q], a), At(mem, t[Child(q, a)], b));
      ChildParent(q, a);
    }
  }

  lemma EmptyGraded(mem: Mem, f: Frame)
    ensures Graded(mem, map[[] := f])
  {
    forall p: Path, i: nat
      ensures Child(p, i) !in map[[] := f]
    {
      ChildParent(p, i);
    }
  }
}
