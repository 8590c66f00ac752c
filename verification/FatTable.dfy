/** The file allocation table as a forest of cluster chains. */
module FatTable {

  const EOC: nat := 0x0FFF_FFFF
  const FREE: nat := 0
  const GUARD: nat := 1_000_000

  /** One value per cluster; clusters 0 and 1 are reserved. */
  type Fat = seq<nat>

  predicate IsCluster(fat: Fat, c: nat) { 2 <= c < |fat| }

  /** `cluster_chain` stops after a cluster whose entry satisfies this. */
  predicate EndMark(next: nat) { next >= EOC - 1 || next == FREE }

  /** The loop of `cluster_chain`, with at most `guard` steps left. */
  function Walk(fat: Fat, c: nat, guard: nat): (ch: seq<nat>)
    ensures forall i | 0 <= i < |ch| :: IsCluster(fat, ch[i])
    ensures |ch| <= guard
    decreases guard
  {
    if guard == 0 || !IsCluster(fat, c) then []
    else if EndMark(fat[c]) then [c]
    else [c] + Walk(fat, fat[c], guard - 1)
  }

  function ClusterChain(fat: Fat, first: nat): seq<nat> { Walk(fat, first, GUARD) }

  predicate LinkAt(fat: Fat, ch: seq<nat>, i: nat)
    requires i + 1 < |ch| && ch[i] < |fat|
  {
    fat[ch[i]] == ch[i + 1] && !EndMark(ch[i + 1])
  }

  /** A proper chain: clusters linked in order, all allocated, ending at a mark or outside the table. */
  ghost predicate Linked(fat: Fat, ch: seq<nat>) {
    && (forall i | 0 <= i < |ch| :: IsCluster(fat, ch[i]) && fat[ch[i]] != FREE)
    && (forall i: nat | i < |ch| - 1 :: LinkAt(fat, ch, i))
    && (|ch| > 0 ==> EndMark(fat[ch[|ch| - 1]]) || !IsCluster(fat, fat[ch[|ch| - 1]]))
  }

  ghost predicate Distinct(ch: seq<nat>) {
    forall i, j | 0 <= i < j < |ch| :: ch[i] != ch[j]
  }

  function Head(ch: seq<nat>): nat { if ch == [] then 0 else ch[0] }

  /** The walk recovers a proper chain, as long as the guard allows its length. */
  lemma {:induction false} WalkLinked(fat: Fat, ch: seq<nat>, guard: nat)
    requires Linked(fat, ch) && |ch| <= guard
    ensures Walk(fat, Head(ch), guard) == ch
    decreases guard
  {
    if ch != [] && |ch| > 1 {
      assert LinkAt(fat, ch, 0);
      LinkedTail(fat, ch);
      WalkLinked(fat, ch[1..], guard - 1);
      assert ch == [ch[0]] + ch[1..];
    } else if |ch| == 1 {
      if !EndMark(fat[ch[0]]) {
        assert Walk(fat, fat[ch[0]], guard - 1) == [];
      }
    }
  }

  lemma LinkedTail(fat: Fat, ch: seq<nat>)
    requires Linked(fat, ch) && |ch| > 1
    ensures Linked(fat, ch[1..])
  {
    var t := ch[1..];
    forall i: nat | i < |t| - 1
      ensures LinkAt(fat, t, i)
    {
      assert LinkAt(fat, ch, i + 1);
    }
  }

  /** The numbers below `n`. */
  ghost function Upto(n: nat): (r: set<nat>)
    ensures |r| == n
    ensures forall i :: i in r <==> 0 <= i < n
  {
    if n == 0 then {} else Upto(n - 1) + {n - 1}
  }

  lemma DistinctBound(ch: seq<nat>, n: nat)
    requires Distinct(ch) && forall i | 0 <= i < |ch| :: ch[i] < n
    ensures |ch| <= n
  {
    DistinctCount(ch, Upto(n));
  }

  lemma {:induction false} DistinctCount(ch: seq<nat>, among: set<nat>)
    requires Distinct(ch) && forall i | 0 <= i < |ch| :: ch[i] in among
    ensures |ch| <= |among|
  {
    if ch != [] {
      var n := |ch| - 1;
      DistinctCount(ch[..n], among - {ch[n]});
    }
  }

  /** The million-step guard never cuts a proper chain when the table has at most a million entries. */
  lemma GuardSuffices(fat: Fat, ch: seq<nat>)
    requires Linked(fat, ch) && Distinct(ch) && |fat| <= GUARD
    ensures ClusterChain(fat, Head(ch)) == ch
  {
    DistinctBound(ch, |fat|);
    WalkLinked(fat, ch, GUARD);
  }

  /** Which chain a cluster belongs to, and where in it. */
  datatype Slot = Slot(id: nat, i: nat)

  /** All chains at once: proper, and pairwise disjoint because every cluster has one slot. */
  ghost predicate Forest(fat: Fat, chains: map<nat, seq<nat>>, slots: map<nat, Slot>) {
    && |fat| <= GUARD
    && (forall id | id in chains :: Linked(fat, chains[id]))
    && (forall id, i: nat | id in chains && i < |chains[id]| ::
          chains[id][i] in slots && slots[chains[id][i]] == Slot(id, i))
    && (forall c | c in slots ::
          slots[c].id in chains && slots[c].i < |chains[slots[c].id]| && chains[slots[c].id][slots[c].i] == c)
  }

  ghost function Elems(ch: seq<nat>): set<nat> {
    set c | c in ch
  }

  ghost function FreeClusters(fat: Fat): set<nat> {
    set c | 2 <= c < |fat| && fat[c] == FREE
  }

  lemma ForestDistinct(fat: Fat, chains: map<nat, seq<nat>>, slots: map<nat, Slot>, id: nat)
    requires Forest(fat, chains, slots) && id in chains
    ensures Distinct(chains[id])
    ensures ClusterChain(fat, Head(chains[id])) == chains[id]
  {
    var ch := chains[id];
    forall i, j | 0 <= i < j < |ch|
      ensures ch[i] != ch[j]
    {
      assert slots[ch[i]] == Slot(id, i) && slots[ch[j]] == Slot(id, j);
    }
    GuardSuffices(fat, ch);
  }

  /** Two different chains share no cluster. */
  lemma ForestDisjoint(fat: Fat, chains: map<nat, seq<nat>>, slots: map<nat, Slot>, id: nat, i: nat, id': nat, i': nat)
    requires Forest(fat, chains, slots) && id in chains && id' in chains
    requires i < |chains[id]| && i' < |chains[id']| && chains[id][i] == chains[id'][i']
    ensures id == id' && i == i'
  {
    assert slots[chains[id][i]] == Slot(id, i);
    assert slots[chains[id'][i']] == Slot(id', i');
  }

  /** Changing entries of clusters outside a chain leaves it proper. */
  lemma LinkedKept(fat: Fat, fat': Fat, ch: seq<nat>)
    requires Linked(fat, ch) && |fat'| == |fat|
    requires forall i | 0 <= i < |ch| :: fat'[ch[i]] == fat[ch[i]]
    ensures Linked(fat', ch)
  {
    forall i: nat | i < |ch| - 1
      ensures LinkAt(fat', ch, i)
    {
      assert LinkAt(fat, ch, i);
    }
  }

  /** Allocation and linking of `c` at the end of a chain. */
  function Link(fat: Fat, ch: seq<nat>, c: nat): Fat
    requires c < |fat| && forall i | 0 <= i < |ch| :: ch[i] < |fat|
  {
    if ch == [] then fat[c := EOC] else fat[c := EOC][ch[|ch| - 1] := c]
  }

  lemma LinkChain(fat: Fat, ch: seq<nat>, c: nat)
    requires Linked(fat, ch) && Distinct(ch) && IsCluster(fat, c) && fat[c] == FREE && |fat| <= GUARD
    ensures Linked(Link(fat, ch, c), ch + [c])
  {
    var fat' := Link(fat, ch, c);
    var ch' := ch + [c];
    forall i: nat | i < |ch'| - 1
      ensures LinkAt(fat', ch', i)
    {
      if i < |ch| - 1 {
        assert LinkAt(fat, ch, i);
      }
    }
  }

  /** Extending a chain appends to it, uses up one free cluster and touches no other chain. */
  lemma LinkKeeps(fat: Fat, chains: map<nat, seq<nat>>, slots: map<nat, Slot>, id: nat, c: nat)
    requires Forest(fat, chains, slots) && id in chains && IsCluster(fat, c) && fat[c] == FREE
    ensures var fat' := Link(fat, chains[id], c);
            && Forest(fat', chains[id := chains[id] + [c]], slots[c := Slot(id, |chains[id]|)])
            && FreeClusters(fat') == FreeClusters(fat) - {c}
  {
    hide Linked, Link, FreeClusters;
    ForestDistinct(fat, chains, slots, id);
    assert Linked(fat, chains[id]);
    LinkChain(fat, chains[id], c);
    LinkFree(fat, chains[id], c);
    LinkOthers(fat, chains, slots, id, c);
    NotAllocated(fat, chains, slots, c);
  }

  lemma LinkFree(fat: Fat, ch: seq<nat>, c: nat)
    requires Linked(fat, ch) && IsCluster(fat, c) && fat[c] == FREE
    ensures FreeClusters(Link(fat, ch, c)) == FreeClusters(fat) - {c} && |Link(fat, ch, c)| == |fat|
  {
  }

  lemma LinkOthers(fat: Fat, chains: map<nat, seq<nat>>, slots: map<nat, Slot>, id: nat, c: nat)
    requires Forest(fat, chains, slots) && id in chains && IsCluster(fat, c) && fat[c] == FREE && Linked(fat, chains[id])
    ensures forall id' | id' in chains && id' != id :: Linked(Link(fat, chains[id], c), chains[id'])
  {
    var fat' := Link(fat, chains[id], c);
    hide Linked;
    NotAllocated(fat, chains, slots, c);
    forall id' | id' in chains && id' != id
      ensures Linked(fat', chains[id'])
    {
      OtherChain(fat, fat', chains, slots, id, id', c);
    }
  }

  /** Clusters in chains are allocated. */
  lemma SlotUsed(fat: Fat, chains: map<nat, seq<nat>>, slots: map<nat, Slot>, c: nat)
    requires Forest(fat, chains, slots) && c in slots
    ensures IsCluster(fat, c) && fat[c] != FREE
  {
    assert Linked(fat, chains[slots[c].id]);
  }

  lemma NotAllocated(fat: Fat, chains: map<nat, seq<nat>>, slots: map<nat, Slot>, c: nat)
    requires Forest(fat, chains, slots) && (c >= |fat| || c < 2 || fat[c] == FREE)
    ensures c !in slots
  {
    forall x | x in slots
      ensures x != c
    {
      SlotUsed(fat, chains, slots, x);
    }
  }

  lemma NotInOther(fat: Fat, chains: map<nat, seq<nat>>, slots: map<nat, Slot>, id: nat, id': nat, i: nat)
    requires Forest(fat, chains, slots) && id in chains && id' in chains && id' != id && i < |chains[id']|
    ensures chains[id'][i] !in chains[id]
  {
    hide Linked;
    forall j | 0 <= j < |chains[id]|
      ensures chains[id][j] != chains[id'][i]
    {
      assert slots[chains[id][j]] == Slot(id, j);
      assert slots[chains[id'][i]] == Slot(id', i);
    }
  }

  /** A chain whose entries lie outside both `id`'s chain and `c` is unaffected by changes there. */
  lemma OtherChain(fat: Fat, fat': Fat, chains: map<nat, seq<nat>>, slots: map<nat, Slot>, id: nat, id': nat, c: nat)
    requires Forest(fat, chains, slots) && id in chains && id' in chains && id' != id && c !in slots
    requires |fat'| == |fat|
    requires forall x | 0 <= x < |fat| && x != c && x !in chains[id] :: fat'[x] == fat[x]
    ensures Linked(fat', chains[id'])
  {
    var ch := chains[id'];
    assert Linked(fat, ch);
    forall i | 0 <= i < |ch|
      ensures fat'[ch[i]] == fat[ch[i]]
    {
      assert slots[ch[i]] == Slot(id', i);
      NotInOther(fat, chains, slots, id, id', i);
    }
    LinkedKept(fat, fat', ch);
  }

  /** Marking a list of clusters free, one after the other. */
  function Clear(fat: Fat, cs: seq<nat>): (r: Fat)
    requires forall i | 0 <= i < |cs| :: cs[i] < |fat|
    ensures |r| == |fat|
    ensures forall c | 0 <= c < |fat| :: r[c] == if c in cs then FREE else fat[c]
    decreases |cs|
  {
    if cs == [] then fat else
    assert forall c | c in cs :: c == cs[0] || c in cs[1..];
    Clear(fat[cs[0] := FREE], cs[1..])
  }

  /** Keep the first `keep` clusters of a chain and free the rest. */
  function Cut(fat: Fat, ch: seq<nat>, keep: nat): Fat
    requires keep <= |ch| && forall i | 0 <= i < |ch| :: ch[i] < |fat|
  {
    var fat' := Clear(fat, ch[keep..]);
    if keep == 0 || keep == |ch| then fat' else fat'[ch[keep - 1] := EOC]
  }

  lemma CutChain(fat: Fat, ch: seq<nat>, keep: nat)
    requires Linked(fat, ch) && Distinct(ch) && keep <= |ch|
    ensures Linked(Cut(fat, ch, keep), ch[..keep])
  {
    var fat' := Cut(fat, ch, keep);
    var ch' := ch[..keep];
    forall i | 0 <= i < keep
      ensures ch[i] !in ch[keep..]
    {
    }
    forall i: nat | i < |ch'| - 1
      ensures LinkAt(fat', ch', i)
    {
      assert LinkAt(fat, ch, i);
    }
  }

  /** Truncating a chain leaves its prefix, frees exactly its tail and touches no other chain. */
  lemma CutKeeps(fat: Fat, chains: map<nat, seq<nat>>, slots: map<nat, Slot>, id: nat, keep: nat)
    requires Forest(fat, chains, slots) && id in chains && keep <= |chains[id]|
    ensures var ch := chains[id];
            var fat' := Cut(fat, ch, keep);
            && Forest(fat', chains[id := ch[..keep]], slots - Elems(ch[keep..]))
            && FreeClusters(fat') == FreeClusters(fat) + Elems(ch[keep..])
  {
    hide Linked, FreeClusters;
    var ch := chains[id];
    ForestDistinct(fat, chains, slots, id);
    CutChain(fat, ch, keep);
    CutFree(fat, ch, keep);
    CutSlots(fat, chains, slots, id, keep);
    CutOthers(fat, chains, slots, id, keep);
  }

  lemma CutOthers(fat: Fat, chains: map<nat, seq<nat>>, slots: map<nat, Slot>, id: nat, keep: nat)
    requires Forest(fat, chains, slots) && id in chains && keep <= |chains[id]|
    ensures forall i | 0 <= i < |chains[id]| :: chains[id][i] < |fat|
    ensures forall id' | id' in chains && id' != id :: Linked(Cut(fat, chains[id], keep), chains[id'])
  {
    assert Linked(fat, chains[id]);
    hide Linked;
    NotAllocated(fat, chains, slots, 0);
    var fat' := Cut(fat, chains[id], keep);
    forall id' | id' in chains && id' != id
      ensures Linked(fat', chains[id'])
    {
      OtherChain(fat, fat', chains, slots, id, id', 0);
    }
  }

  lemma CutFree(fat: Fat, ch: seq<nat>, keep: nat)
    requires Linked(fat, ch) && Distinct(ch) && keep <= |ch|
    ensures FreeClusters(Cut(fat, ch, keep)) == FreeClusters(fat) + Elems(ch[keep..])
  {
    var tail := ch[keep..];
    forall c | c in tail
      ensures IsCluster(fat, c)
    {
    }
    if 0 < keep < |ch| {
      assert ch[keep - 1] !in tail;
    }
  }

  lemma CutSlots(fat: Fat, chains: map<nat, seq<nat>>, slots: map<nat, Slot>, id: nat, keep: nat)
    requires Forest(fat, chains, slots) && id in chains && keep <= |chains[id]|
    ensures var chains' := chains[id := chains[id][..keep]];
            var slots' := slots - Elems(chains[id][keep..]);
            && (forall id', i: nat | id' in chains' && i < |chains'[id']| ::
                  chains'[id'][i] in slots' && slots'[chains'[id'][i]] == Slot(id', i))
            && (forall c | c in slots' ::
                  slots'[c].id in chains' && slots'[c].i < |chains'[slots'[c].id]| && chains'[slots'[c].id][slots'[c].i] == c)
  {
    hide Linked;
    var ch := chains[id];
    forall c | c in slots
      ensures c in ch[keep..] <==> slots[c].id == id && slots[c].i >= keep
    {
      if c in ch[keep..] {
        var j :| 0 <= j < |ch| - keep && ch[keep..][j] == c;
        assert slots[ch[keep + j]] == Slot(id, keep + j);
      }
      if slots[c].id == id && slots[c].i >= keep {
        assert ch[keep..][slots[c].i - keep] == c;
      }
    }
  }

  /** Forgetting a chain altogether, after it was cut to nothing. */
  lemma DropEmpty(fat: Fat, chains: map<nat, seq<nat>>, slots: map<nat, Slot>, id: nat)
    requires Forest(fat, chains, slots) && id in chains && chains[id] == []
    ensures Forest(fat, chains - {id}, slots)
  {
    hide Linked;
  }

  /** Allocated clusters that no known chain has: files nobody has opened, and leaks. */
  ghost function Unclaimed(fat: Fat, slots: map<nat, Slot>): set<nat> {
    set c | 2 <= c < |fat| && fat[c] != FREE && c !in slots
  }

  ghost predicate InSomeChain(chains: map<nat, seq<nat>>, c: nat) {
    exists id | id in chains :: c in chains[id]
  }

  /** The slots are exactly the clusters of the chains, all of them allocated. */
  lemma SlotsAreChains(fat: Fat, chains: map<nat, seq<nat>>, slots: map<nat, Slot>, c: nat)
    requires Forest(fat, chains, slots)
    ensures c in slots <==> InSomeChain(chains, c)
    ensures c in slots ==> IsCluster(fat, c) && fat[c] != FREE
  {
    hide Linked;
    if c in slots {
      SlotUsed(fat, chains, slots, c);
      assert chains[slots[c].id][slots[c].i] in chains[slots[c].id];
    }
    if InSomeChain(chains, c) {
      var id :| id in chains && c in chains[id];
      var i: nat :| i < |chains[id]| && chains[id][i] == c;
      assert chains[id][i] in slots;
    }
  }

  /** Free clusters, clusters of the chains and unclaimed ones add up to the table, and none is counted twice. */
  lemma FreePlusUsed(fat: Fat, chains: map<nat, seq<nat>>, slots: map<nat, Slot>)
    requires Forest(fat, chains, slots) && |fat| >= 2
    ensures forall c: nat :: c in slots <==> InSomeChain(chains, c)
    ensures |FreeClusters(fat)| + |slots.Keys| + |Unclaimed(fat, slots)| == |fat| - 2
  {
    hide Forest, InSomeChain;
    forall c: nat
      ensures c in slots <==> InSomeChain(chains, c)
      ensures c in slots ==> IsCluster(fat, c) && fat[c] != FREE
    {
      SlotsAreChains(fat, chains, slots, c);
    }
    AddUp(FreeClusters(fat), slots.Keys, Unclaimed(fat, slots), |fat|);
  }

  lemma AddUp(a: set<nat>, b: set<nat>, c: set<nat>, n: nat)
    requires n >= 2 && a !! b && a !! c && b !! c && forall x: nat :: x in a + b + c <==> 2 <= x < n
    ensures |a| + |b| + |c| == n - 2
  {
    var ab := a + b;
    var abc := ab + c;
    assert |ab| == |a| + |b| && ab !! c;
    assert |abc| == |ab| + |c| && abc !! Upto(2);
    assert Upto(n) == abc + Upto(2);
    assert |Upto(n)| == |abc| + |Upto(2)|;
  }
}
