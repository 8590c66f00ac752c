/** The driver's table of inodes and chains as a value, and the laws of its steps. */
module FatState {
  import opened Bytes
  import opened Disk
  import opened FatDir
  import opened FatFile
  import opened FatLayout
  import opened FatScan
  import opened FatTable
  import opened FatTree
  import opened Wrappers

  datatype Inode = Inode(first: nat, size: nat, isDir: bool)

  /** An inode's first cluster is the head of its chain, or no cluster at all. */
  predicate HeadOk(fat: Fat, first: nat, ch: seq<nat>) {
    if ch == [] then !IsCluster(fat, first) else first == ch[0]
  }

  /** The driver's state as one value: table, inodes and their chains. */
  datatype Table = Table(fat: Fat, inodes: map<nat, Inode>, chains: map<nat, seq<nat>>, slots: map<nat, Slot>)

  ghost predicate TableOk(t: Table) {
    && Words(t.fat) && |t.fat| <= GUARD
    && Forest(t.fat, t.chains, t.slots)
    && t.chains.Keys == t.inodes.Keys
    && (forall id | id in t.inodes :: HeadOk(t.fat, t.inodes[id].first, t.chains[id]))
  }

  lemma ChainOf(t: Table, id: nat)
    requires TableOk(t) && id in t.inodes
    ensures id in t.chains && ClusterChain(t.fat, t.inodes[id].first) == t.chains[id] && Distinct(t.chains[id])
    ensures forall i | 0 <= i < |t.chains[id]| :: IsCluster(t.fat, t.chains[id][i])
  {
    ForestDistinct(t.fat, t.chains, t.slots, id);
    assert Linked(t.fat, t.chains[id]);
  }

  /** The state after linking cluster `c` to the chain of `id`. */
  function LinkTable(t: Table, id: nat, c: nat): Table
    requires id in t.inodes && id in t.chains && c < |t.fat|
    requires forall i | 0 <= i < |t.chains[id]| :: t.chains[id][i] < |t.fat|
  {
    var ch := t.chains[id];
    Table(Link(t.fat, ch, c),
          if ch == [] then t.inodes[id := t.inodes[id].(first := c)] else t.inodes,
          t.chains[id := ch + [c]], t.slots[c := Slot(id, |ch|)])
  }

  lemma LinkTableOk(t: Table, id: nat, c: nat)
    requires TableOk(t) && id in t.inodes && IsCluster(t.fat, c) && t.fat[c] == FREE
    ensures id in t.chains && forall i | 0 <= i < |t.chains[id]| :: t.chains[id][i] < |t.fat|
    ensures TableOk(LinkTable(t, id, c))
    ensures FreeClusters(LinkTable(t, id, c).fat) == FreeClusters(t.fat) - {c}
  {
    hide Forest, FreeClusters, ClusterChain;
    ChainOf(t, id);
    LinkKeeps(t.fat, t.chains, t.slots, id, c);
    LinkHeads(t, id, c);
  }

  lemma LinkHeads(t: Table, id: nat, c: nat)
    requires Words(t.fat) && |t.fat| <= GUARD && IsCluster(t.fat, c) && t.chains.Keys == t.inodes.Keys && id in t.inodes
    requires forall i | 0 <= i < |t.chains[id]| :: t.chains[id][i] < |t.fat|
    requires forall j | j in t.inodes :: HeadOk(t.fat, t.inodes[j].first, t.chains[j])
    ensures var t' := LinkTable(t, id, c);
            && Words(t'.fat) && t'.chains.Keys == t'.inodes.Keys
            && forall j | j in t'.inodes :: HeadOk(t'.fat, t'.inodes[j].first, t'.chains[j])
  {
  }

  /** Extending a chain: other chains, sizes and kinds are untouched; the chain keeps its old part. */
  ghost predicate Extended(t: Table, t': Table, id: nat) {
    && |t'.fat| == |t.fat|
    && id in t.inodes && id in t.chains && t'.inodes.Keys == t.inodes.Keys && t'.chains.Keys == t.chains.Keys
    && (forall j | j in t.inodes && j != id :: t'.inodes[j] == t.inodes[j])
    && (forall j | j in t.chains && j != id :: t'.chains[j] == t.chains[j])
    && t'.inodes[id].isDir == t.inodes[id].isDir
    && t.chains[id] <= t'.chains[id] && (t'.chains[id] == [] ==> t'.inodes[id].first == t.inodes[id].first)
    && FreeClusters(t.fat) == FreeClusters(t'.fat) + Elems(t'.chains[id][|t.chains[id]|..])
    && (forall x | 0 <= x < |t.fat| && x !in t'.chains[id] :: t'.fat[x] == t.fat[x])
  }

  lemma ExtendedRefl(t: Table, id: nat)
    requires TableOk(t) && id in t.inodes
    ensures Extended(t, t, id)
  {
    assert Elems(t.chains[id][|t.chains[id]|..]) == {};
  }

  lemma ExtendedLink(t: Table, t1: Table, id: nat, c: nat)
    requires TableOk(t) && TableOk(t1) && Extended(t, t1, id) && id in t1.inodes
    requires IsCluster(t1.fat, c) && t1.fat[c] == FREE
    requires forall i | 0 <= i < |t1.chains[id]| :: t1.chains[id][i] < |t1.fat|
    ensures Extended(t, LinkTable(t1, id, c), id)
  {
    hide TableOk;
    LinkTableOk(t1, id, c);
    assert c in FreeClusters(t1.fat);
    hide FreeClusters;
    var t2 := LinkTable(t1, id, c);
    var n := |t.chains[id]|;
    assert t2.chains[id][n..] == t1.chains[id][n..] + [c];
    assert Elems(t2.chains[id][n..]) == Elems(t1.chains[id][n..]) + {c};
  }

  /** Marking a free cluster allocated without linking it: the forest does not see it. */
  lemma AllocTableOk(t: Table, c: nat)
    requires TableOk(t) && IsCluster(t.fat, c) && t.fat[c] == FREE
    ensures TableOk(t.(fat := t.fat[c := EOC])) && c !in t.slots
  {
    NotAllocated(t.fat, t.chains, t.slots, c);
    hide Linked;
    var fat' := t.fat[c := EOC];
    forall id | id in t.chains
      ensures Linked(fat', t.chains[id])
    {
      OutsideChain(t, fat', id, c);
    }
  }

  lemma OutsideChain(t: Table, fat': Fat, id: nat, c: nat)
    requires TableOk(t) && id in t.chains && c !in t.slots && |fat'| == |t.fat|
    requires forall x | 0 <= x < |t.fat| && x != c :: fat'[x] == t.fat[x]
    ensures Linked(fat', t.chains[id])
  {
    var ch := t.chains[id];
    assert Linked(t.fat, ch);
    forall i | 0 <= i < |ch|
      ensures fat'[ch[i]] == t.fat[ch[i]]
    {
      assert t.slots[ch[i]] == Slot(id, i);
    }
    LinkedKept(t.fat, fat', ch);
  }

  /** A new inode for a chain that is nobody's yet. */
  ghost predicate Adoptable(t: Table, first: nat, ch: seq<nat>) {
    && Linked(t.fat, ch) && Distinct(ch) && HeadOk(t.fat, first, ch)
    && (forall i | 0 <= i < |ch| :: ch[i] !in t.slots)
  }

  ghost function AdoptTable(t: Table, id: nat, ino: Inode, ch: seq<nat>): Table {
    Table(t.fat, t.inodes[id := ino], t.chains[id := ch], AddSlots(t.slots, id, ch))
  }

  ghost function AddSlots(slots: map<nat, Slot>, id: nat, ch: seq<nat>): (r: map<nat, Slot>)
    requires true
    ensures forall c | c in slots && c !in ch :: c in r && r[c] == slots[c]
    ensures forall c | c in r :: c in slots || c in ch
    ensures Distinct(ch) ==> forall i | 0 <= i < |ch| :: ch[i] in r && r[ch[i]] == Slot(id, i)
  {
    if ch == [] then slots else
    var n := |ch| - 1;
    assert ch == ch[..n] + [ch[n]];
    AddSlots(slots, id, ch[..n])[ch[n] := Slot(id, n)]
  }

  lemma AdoptTableOk(t: Table, id: nat, ino: Inode, ch: seq<nat>)
    requires TableOk(t) && id !in t.inodes && Adoptable(t, ino.first, ch)
    ensures TableOk(AdoptTable(t, id, ino, ch))
  {
    hide Forest, Linked, AddSlots, Words;
    AdoptForest(t.fat, t.chains, t.slots, id, ch);
  }

  lemma FirstInode(fat: Fat, id: nat, ino: Inode, ch: seq<nat>)
    requires Words(fat) && |fat| <= GUARD && Linked(fat, ch) && Distinct(ch) && HeadOk(fat, ino.first, ch)
    ensures TableOk(Table(fat, map[id := ino], map[id := ch], AddSlots(map[], id, ch)))
  {
    hide Linked;
    var t := Table(fat, map[], map[], map[]);
    AdoptTableOk(t, id, ino, ch);
    assert AdoptTable(t, id, ino, ch) == Table(fat, map[id := ino], map[id := ch], AddSlots(map[], id, ch));
  }

  lemma AdoptForest(fat: Fat, chains: map<nat, seq<nat>>, slots: map<nat, Slot>, id: nat, ch: seq<nat>)
    requires Forest(fat, chains, slots) && id !in chains && Distinct(ch) && Linked(fat, ch)
    requires forall i | 0 <= i < |ch| :: ch[i] !in slots
    ensures Forest(fat, chains[id := ch], AddSlots(slots, id, ch))
  {
    hide Linked, AddSlots;
    AdoptSlots(chains, slots, id, ch);
    var chains' := chains[id := ch];
    forall j | j in chains'
      ensures Linked(fat, chains'[j])
    {
    }
  }

  lemma AdoptSlots(chains: map<nat, seq<nat>>, slots: map<nat, Slot>, id: nat, ch: seq<nat>)
    requires id !in chains && Distinct(ch) && forall i | 0 <= i < |ch| :: ch[i] !in slots
    requires forall j, i: nat | j in chains && i < |chains[j]| :: chains[j][i] in slots && slots[chains[j][i]] == Slot(j, i)
    requires forall c | c in slots ::
               slots[c].id in chains && slots[c].i < |chains[slots[c].id]| && chains[slots[c].id][slots[c].i] == c
    ensures var chains' := chains[id := ch];
            var slots' := AddSlots(slots, id, ch);
            && (forall j, i: nat | j in chains' && i < |chains'[j]| ::
                  chains'[j][i] in slots' && slots'[chains'[j][i]] == Slot(j, i))
            && (forall c | c in slots' ::
                  slots'[c].id in chains' && slots'[c].i < |chains'[slots'[c].id]| && chains'[slots'[c].id][slots'[c].i] == c)
  {
    hide AddSlots;
    var chains' := chains[id := ch];
    var slots' := AddSlots(slots, id, ch);
    forall j, i: nat | j in chains' && i < |chains'[j]|
      ensures chains'[j][i] in slots' && slots'[chains'[j][i]] == Slot(j, i)
    {
      if j != id {
        assert slots[chains[j][i]] == Slot(j, i);
      }
    }
    forall c | c in slots'
      ensures slots'[c].id in chains' && slots'[c].i < |chains'[slots'[c].id]|
      ensures chains'[slots'[c].id][slots'[c].i] == c
    {
      if c in ch {
        var i :| 0 <= i < |ch| && ch[i] == c;
        assert slots'[ch[i]] == Slot(id, i);
      }
    }
  }

  /** Cutting the chain of `id` to `keep` clusters; cutting to nothing also forgets the first cluster. */
  ghost function CutTable(t: Table, id: nat, keep: nat): Table
    requires id in t.inodes && id in t.chains && keep <= |t.chains[id]|
    requires forall i | 0 <= i < |t.chains[id]| :: t.chains[id][i] < |t.fat|
  {
    var ch := t.chains[id];
    Table(Cut(t.fat, ch, keep),
          if keep == 0 then t.inodes[id := t.inodes[id].(first := 0)] else t.inodes,
          t.chains[id := ch[..keep]], t.slots - Elems(ch[keep..]))
  }

  lemma CutTableOk(t: Table, id: nat, keep: nat)
    requires TableOk(t) && id in t.inodes && id in t.chains && keep <= |t.chains[id]|
    ensures forall i | 0 <= i < |t.chains[id]| :: t.chains[id][i] < |t.fat|
    ensures TableOk(CutTable(t, id, keep))
    ensures FreeClusters(CutTable(t, id, keep).fat) == FreeClusters(t.fat) + Elems(t.chains[id][keep..])
  {
    hide Forest, FreeClusters, ClusterChain, Elems;
    ChainOf(t, id);
    CutKeeps(t.fat, t.chains, t.slots, id, keep);
    CutHeads(t, id, keep);
  }

  lemma CutHeads(t: Table, id: nat, keep: nat)
    requires Words(t.fat) && t.chains.Keys == t.inodes.Keys && id in t.inodes && keep <= |t.chains[id]|
    requires forall i | 0 <= i < |t.chains[id]| :: t.chains[id][i] < |t.fat|
    requires forall j | j in t.inodes :: HeadOk(t.fat, t.inodes[j].first, t.chains[j])
    ensures var t' := CutTable(t, id, keep);
            && Words(t'.fat) && t'.chains.Keys == t'.inodes.Keys
            && forall j | j in t'.inodes :: HeadOk(t'.fat, t'.inodes[j].first, t'.chains[j])
  {
  }

  lemma NoFree(fat: Fat)
    requires forall i | 2 <= i < |fat| :: fat[i] != FREE
    ensures FreeClusters(fat) == {}
  {
  }

  lemma LinkTableIs(t: Table, t': Table, id: nat, c: nat)
    requires id in t.inodes && id in t.chains && c < |t.fat|
    requires forall i | 0 <= i < |t.chains[id]| :: t.chains[id][i] < |t.fat|
    requires t'.fat == Link(t.fat, t.chains[id], c)
    requires t'.inodes == if t.chains[id] == [] then t.inodes[id := t.inodes[id].(first := c)] else t.inodes
    requires t'.chains == t.chains[id := t.chains[id] + [c]] && t'.slots == t.slots[c := Slot(id, |t.chains[id]|)]
    ensures t' == LinkTable(t, id, c)
  {
  }

  /** The bytes of a chain from `from` to `to`, or fewer when the chain is shorter. */
  function FileSlice(disk: seq<byte>, g: Geometry, ch: seq<nat>, from: nat, to: nat): seq<byte>
    requires Readable(disk, g, ch) && GeoOk(g)
  {
    var flat := Flatten(ChainBlocks(disk, g, ch), ClusterLen(g));
    if from < Min(to, |flat|) then flat[from..Min(to, |flat|)] else []
  }

  lemma ReadIsFileSlice(disk: seq<byte>, g: Geometry, ch: seq<nat>, from: nat, to: nat)
    requires Readable(disk, g, ch) && GeoOk(g)
    ensures ReadLoop(ChainBlocks(disk, g, ch), ClusterLen(g), from, to) == FileSlice(disk, g, ch, from, to)
  {
    hide ClusterData, ReadLoop, Flatten;
    ReadIsSlice(ChainBlocks(disk, g, ch), ClusterLen(g), from, to);
  }

  lemma WriteLoopStep(blocks: Blocks, b: nat, offset: nat, buf: seq<byte>, pos: nat)
    requires Sized(blocks, b) && offset <= pos < offset + |buf| && Index(pos - offset, b) < |blocks|
    ensures var i := Index(pos - offset, b);
            var take := Min(offset + |buf| - pos, b - Within(pos, b));
            var next := blocks[i := Put(blocks[i], Within(pos, b), buf[pos - offset..pos - offset + take])];
            Sized(next, b) && WriteLoop(blocks, b, offset, buf, pos) == WriteLoop(next, b, offset, buf, pos + take)
  {
    var i := Index(pos - offset, b);
    var take := Min(offset + |buf| - pos, b - Within(pos, b));
    var part := buf[pos - offset..pos - offset + take];
    assert |Put(blocks[i], Within(pos, b), part)| == b;
    var next := blocks[i := Put(blocks[i], Within(pos, b), part)];
    assert WriteLoop(blocks, b, offset, buf, pos) == WriteLoop(next, b, offset, buf, pos + take);
  }

  lemma WriteLoopEnds(blocks: Blocks, b: nat, offset: nat, buf: seq<byte>, pos: nat)
    requires Sized(blocks, b) && offset <= pos && (pos >= offset + |buf| || Index(pos - offset, b) >= |blocks|)
    ensures WriteLoop(blocks, b, offset, buf, pos) == blocks
  {
  }

  lemma SameWeaken(disk: seq<byte>, disk': seq<byte>, g: Geometry, s: set<nat>, t: set<nat>)
    requires SameClusters(disk, disk', g, s) && s <= t
    ensures SameClusters(disk, disk', g, t)
  {
    hide ClusterData;
  }

  /** `buf[off + 28 .. off + 32] = size`. */
  function PatchSize(b: seq<byte>, i: nat, size: nat): (r: seq<byte>)
    requires SLOT * i + SLOT <= |b|
    ensures |r| == |b|
  {
    Put(b, SLOT * i + 28, LeEncode(size, 4))
  }

  /** Storing a number in four bytes keeps it modulo 2^32. */
  lemma EncodeWraps(size: nat)
    ensures LeDecode(LeEncode(size, 4)) == size % 0x1_0000_0000
  {
    assert Pow256(2) == 0x1_0000;
    assert Pow256(4) == 0x1_0000_0000;
    LeWraps(size, 4);
  }

  /** All clusters that a write up to `pos` needs are readable. */
  ghost predicate Reached(disk: seq<byte>, g: Geometry, chain: seq<nat>, pos: nat) {
    forall k | 0 <= k < |chain| && k * ClusterLen(g) < pos :: ClusterData(disk, g, chain[k]).Some?
  }

  lemma SameSome(disk: seq<byte>, disk': seq<byte>, g: Geometry, touched: set<nat>)
    requires SameClusters(disk, disk', g, touched)
    ensures forall c: nat :: ClusterData(disk', g, c).Some? == ClusterData(disk, g, c).Some?
  {
    SomeKept(disk, disk', g);
  }

  lemma ReachedStep(disk: seq<byte>, g: Geometry, chain: seq<nat>, offset: nat, len: nat, pos: nat, take: nat)
    requires GeoOk(g) && GoodWrite(ClusterLen(g), offset, len) && offset <= pos < offset + len
    requires pos > offset ==> Reached(disk, g, chain, pos)
    requires var b := ClusterLen(g);
             && take <= b - Within(pos, b) && Index(pos - offset, b) < |chain|
             && ClusterData(disk, g, chain[Index(pos - offset, b)]).Some?
    ensures Reached(disk, g, chain, pos + take)
  {
    var b := ClusterLen(g);
    assert b > 0;
    hide ClusterData, Index, Within, ClusterLen;
    SameIndex(b, offset, len, pos);
    var i := Index(pos, b);
    Position(pos, b);
    if offset > 0 {
      FirstOnly(b, offset, len, pos);
    }
    forall k | 0 <= k < |chain| && k * b < pos + take
      ensures ClusterData(disk, g, chain[k]).Some?
    {
      if k > i {
        MulMono(i, k, b);
      } else if k < i {
        MulMono(k, i, b);
      }
    }
  }

  lemma FirstOnly(b: nat, offset: nat, len: nat, pos: nat)
    requires b > 0 && offset > 0 && GoodWrite(b, offset, len) && offset <= pos < offset + len
    ensures Index(pos, b) == 0
  {
    SmallMod(pos, b);
  }

  lemma ReachedAll(disk: seq<byte>, g: Geometry, chain: seq<nat>, offset: nat, len: nat, pos: nat)
    requires GeoOk(g) && GoodWrite(ClusterLen(g), offset, len) && offset <= pos < offset + len
    requires pos > offset ==> Reached(disk, g, chain, pos)
    requires Index(pos - offset, ClusterLen(g)) >= |chain|
    ensures Reached(disk, g, chain, offset + len)
  {
    var b := ClusterLen(g);
    assert b > 0;
    hide ClusterData, Index, Within, ClusterLen;
    SameIndex(b, offset, len, pos);
    SmallMod(0, b);
    Position(pos, b);
    var i := Index(pos, b);
    forall k | 0 <= k < |chain| && k * b < offset + len
      ensures ClusterData(disk, g, chain[k]).Some?
    {
      MulMono(k, i, b);
    }
  }

  /** After a good write, a chain whose old part is readable is readable throughout. */
  lemma ReadableAfter(disk: seq<byte>, g: Geometry, was: seq<nat>, chain: seq<nat>, end: nat)
    requires GeoOk(g) && Readable(disk, g, was) && was <= chain && Reached(disk, g, chain, end)
    requires |chain| == if |was| < Needed(end, ClusterLen(g)) then Needed(end, ClusterLen(g)) else |was|
    ensures Readable(disk, g, chain)
  {
    var b := ClusterLen(g);
    assert b > 0;
    hide ClusterData, ClusterLen, Needed;
    forall k | 0 <= k < |chain|
      ensures ClusterData(disk, g, chain[k]).Some?
    {
      if k < |was| {
        assert chain[k] == was[k];
      } else {
        BelowNeeded(end, b, k);
      }
    }
  }

  lemma BelowNeeded(end: nat, b: nat, k: nat)
    requires b > 0 && k < Needed(end, b)
    ensures k * b < end
  {
    var q := Needed(end, b);
    Position(end + b - 1, b);
    MulMono(k, q, b);
  }

  /** What writing or truncating file `id` may do to the table: only its own chain and free clusters change. */
  ghost predicate Changes(t: Table, t': Table, id: nat) {
    && |t'.fat| == |t.fat| && id in t.chains && id in t'.chains
    && t'.inodes.Keys == t.inodes.Keys && t'.chains.Keys == t.chains.Keys
    && (forall x | 0 <= x < |t.fat| && x !in t.chains[id] && t.fat[x] != FREE :: t'.fat[x] == t.fat[x])
    && (forall j | j in t.inodes :: t'.inodes[j].isDir == t.inodes[j].isDir)
    && (forall j | j in t.chains && j != id :: t'.chains[j] == t.chains[j])
    && (forall c | c in t'.chains[id] :: c in t.chains[id] || (c < |t.fat| && t.fat[c] == FREE))
  }

  lemma ExtendedChanges(t: Table, t': Table, id: nat)
    requires Extended(t, t', id)
    ensures Changes(t, t', id)
  {
    var ch, ch' := t.chains[id], t'.chains[id];
    forall c | c in ch'
      ensures c in ch || (c < |t.fat| && t.fat[c] == FREE)
    {
      if c !in ch {
        var k :| 0 <= k < |ch'| && ch'[k] == c;
        assert ch'[|ch|..][k - |ch|] == c;
        assert c in FreeClusters(t.fat);
      }
    }
    forall x | 0 <= x < |t.fat| && x !in ch && t.fat[x] != FREE
      ensures t'.fat[x] == t.fat[x]
    {
      assert x !in ch';
    }
  }

  /** The clusters of the directory tree are allocated, and no file has them. */
  ghost predicate DirsApart(t: Table, disk: seq<byte>, g: Geometry, depth: nat) {
    forall c: nat | InTree(t.fat, disk, g, g.root, depth, c) :: IsDirCluster(t, c)
  }

  ghost predicate IsDirCluster(t: Table, c: nat) {
    c < |t.fat| && t.fat[c] != FREE && forall j | j in t.inodes && j in t.chains && !t.inodes[j].isDir :: c !in t.chains[j]
  }

  lemma DirClusterKept(t: Table, t': Table, id: nat, c: nat)
    requires Changes(t, t', id) && id in t.inodes && !t.inodes[id].isDir && IsDirCluster(t, c)
    ensures IsDirCluster(t', c) && t'.fat[c] == t.fat[c] && c !in t'.chains[id]
  {
  }

  /** Writing a file moves no directory: the tree is the same, and still apart from all files. */
  lemma ApartKept(t: Table, t': Table, disk: seq<byte>, disk': seq<byte>, g: Geometry, id: nat, depth: nat, data: set<nat>, target: nat)
    requires Changes(t, t', id) && id in t.inodes && !t.inodes[id].isDir && DirsApart(t, disk, g, depth)
    requires Patched(disk, disk', g, data, target) && data <= Elems(t'.chains[id])
    ensures DirsApart(t', disk', g, depth)
    ensures forall c: nat :: InTree(t'.fat, disk', g, g.root, depth, c) <==> InTree(t.fat, disk, g, g.root, depth, c)
  {
    hide InTree, IsDirCluster, Changes, Patched;
    SameLength(t, t', id);
    forall c: nat | InTree(t.fat, disk, g, g.root, depth, c)
      ensures c !in data && (c < |t.fat| ==> t'.fat[c] == t.fat[c]) && IsDirCluster(t', c)
    {
      DirClusterKept(t, t', id, c);
    }
    forall c: nat
      ensures InTree(t'.fat, disk', g, g.root, depth, c) <==> InTree(t.fat, disk, g, g.root, depth, c)
    {
      TreeKept(t.fat, t'.fat, disk, disk', g, g.root, depth, data, target, c);
    }
  }

  lemma SameLength(t: Table, t': Table, id: nat)
    requires Changes(t, t', id)
    ensures |t'.fat| == |t.fat| && id in t'.chains
  {
  }

  ghost predicate DataKept(disk: seq<byte>, disk': seq<byte>, g: Geometry, ch: seq<nat>) {
    forall i | 0 <= i < |ch| :: ClusterData(disk', g, ch[i]) == ClusterData(disk, g, ch[i])
  }

  /** Every file but `id` holds the data it held. */
  ghost predicate OthersSame(t: Table, disk: seq<byte>, disk': seq<byte>, g: Geometry, id: nat) {
    forall j | j in t.inodes && j in t.chains && !t.inodes[j].isDir && j != id :: DataKept(disk, disk', g, t.chains[j])
  }

  /** The size update touches a directory cluster, so no file. */
  lemma FilesUntouched(t: Table, t': Table, disk: seq<byte>, disk': seq<byte>, g: Geometry, id: nat, depth: nat, data: set<nat>, touched: set<nat>)
    requires TableOk(t) && TableOk(t') && Changes(t, t', id) && id in t.inodes && DirsApart(t, disk, g, depth)
    requires SameClusters(disk, disk', g, data + touched) && data <= Elems(t'.chains[id])
    requires forall c | c in touched :: InTree(t.fat, disk, g, g.root, depth, c)
    requires !t.inodes[id].isDir
    ensures OthersSame(t, disk, disk', g, id) && touched !! Elems(t'.chains[id])
  {
    hide TableOk, InTree, ClusterData;
    forall c | c in touched
      ensures IsDirCluster(t, c) && c !in t'.chains[id]
    {
      DirClusterKept(t, t', id, c);
    }
    forall j | j in t.inodes && j in t.chains && !t.inodes[j].isDir && j != id
      ensures DataKept(disk, disk', g, t.chains[j])
    {
      forall i | 0 <= i < |t.chains[j]|
        ensures t.chains[j][i] !in data + touched
      {
        OtherChainApart(t', j, id, i);
      }
    }
  }

  /** The file's first cluster is what it was, exactly if the chain is empty before and after, or neither. */
  ghost predicate FirstKeptIff(t: Table, t': Table, id: nat) {
    && id in t.inodes && id in t'.inodes && id in t.chains && id in t'.chains
    && (t'.inodes[id].first == t.inodes[id].first <==> (t'.chains[id] == [] <==> t.chains[id] == []))
  }

  /** What a write or truncation leaves on disk besides the file's own data. */
  ghost predicate Written(t: Table, t': Table, disk: seq<byte>, disk': seq<byte>, g: Geometry, id: nat, depth: nat, touched: set<nat>) {
    && FirstKeptIff(t, t', id) && Patched(disk, disk', g, Elems(t'.chains[id]), t'.inodes[id].first)
    && (DirsApart(t, disk, g, depth) ==>
          DirsApart(t', disk', g, depth) && OthersSame(t, disk, disk', g, id) && touched !! Elems(t'.chains[id]))
  }

  lemma FirstOfExtended(t: Table, t': Table, id: nat)
    requires TableOk(t) && TableOk(t') && Extended(t, t', id)
    ensures FirstKeptIff(t, t', id)
  {
    hide Forest, FreeClusters, Elems;
    ChainOf(t', id);
    hide ClusterChain;
    assert HeadOk(t.fat, t.inodes[id].first, t.chains[id]) && HeadOk(t'.fat, t'.inodes[id].first, t'.chains[id]);
    if t.chains[id] != [] {
      assert t'.chains[id][0] == t.chains[id][0];
    }
  }

  lemma PrefixOf(t: Table, t': Table, id: nat)
    requires Extended(t, t', id)
    ensures t.chains[id] <= t'.chains[id]
  {
    hide FreeClusters, Elems;
  }

  lemma WrittenFrom(t: Table, t': Table, disk: seq<byte>, disk1: seq<byte>, disk': seq<byte>, g: Geometry, id: nat, depth: nat, touched: set<nat>)
    requires TableOk(t) && TableOk(t') && Extended(t, t', id) && !t.inodes[id].isDir
    requires SameClusters(disk, disk1, g, Elems(t'.chains[id])) && SameClusters(disk1, disk', g, touched)
    requires Patched(disk1, disk', g, {}, t'.inodes[id].first)
    requires forall c | c in touched :: InTree(t'.fat, disk1, g, g.root, depth, c)
    ensures Written(t, t', disk, disk', g, id, depth, touched)
  {
    FirstOfExtended(t, t', id);
    ExtendedChanges(t, t', id);
    hide TableOk, Extended, Changes, SameClusters, Patched, InTree, DirsApart, OthersSame, Elems, FirstKeptIff;
    var data, target := Elems(t'.chains[id]), t'.inodes[id].first;
    PatchedThen(disk, disk1, disk', g, data, target);
    PatchedSame(disk, disk1, g, data, target);
    SameClustersTrans(disk, disk1, disk', g, data, touched);
    if DirsApart(t, disk, g, depth) {
      ApartKept(t, t', disk, disk1, g, id, depth, data, target);
      ApartKept(t, t', disk, disk', g, id, depth, data, target);
      FilesUntouched(t, t', disk, disk', g, id, depth, data, touched);
    }
  }

  lemma CutOutside(fat: Fat, ch: seq<nat>, keep: nat)
    requires keep <= |ch| && forall i | 0 <= i < |ch| :: ch[i] < |fat|
    ensures |Cut(fat, ch, keep)| == |fat|
    ensures forall x | 0 <= x < |fat| && x !in ch :: Cut(fat, ch, keep)[x] == fat[x]
  {
    assert forall c | c in ch[keep..] :: c in ch;
  }

  lemma CutChanges(t: Table, t': Table, id: nat, keep: nat)
    requires TableOk(t) && id in t.inodes && id in t.chains && keep <= |t.chains[id]|
    requires forall i | 0 <= i < |t.chains[id]| :: t.chains[id][i] < |t.fat|
    requires t' == if keep < |t.chains[id]| then CutTable(t, id, keep) else t
    ensures Changes(t, t', id)
  {
    hide TableOk, Cut;
    TableKeys(t);
    var ch := t.chains[id];
    CutOutside(t.fat, ch, keep);
    assert forall c | c in ch[..keep] :: c in ch;
    if keep < |ch| {
      assert t'.chains[id] == ch[..keep];
    }
  }

  lemma CutFirst(t: Table, t': Table, id: nat, keep: nat)
    requires TableOk(t) && id in t.inodes && id in t.chains && keep <= |t.chains[id]|
    requires forall i | 0 <= i < |t.chains[id]| :: t.chains[id][i] < |t.fat|
    requires t' == if keep < |t.chains[id]| then CutTable(t, id, keep) else t
    ensures FirstKeptIff(t, t', id)
  {
    hide TableOk, Cut, Elems;
    HeadOf(t, id);
  }

  lemma HeadOf(t: Table, id: nat)
    requires TableOk(t) && id in t.inodes && id in t.chains
    ensures t.chains[id] != [] ==> t.inodes[id].first == t.chains[id][0] >= 2
  {
    ChainOf(t, id);
  }

  lemma SizeChanges(t: Table, t': Table, id: nat, size: nat)
    requires Changes(t, t', id) && FirstKeptIff(t, t', id) && id in t'.inodes
    ensures var u := t'.(inodes := t'.inodes[id := t'.inodes[id].(size := size)]);
            Changes(t, u, id) && FirstKeptIff(t, u, id)
  {
  }

  lemma TruncatedOnDisk(t: Table, t1: Table, t': Table, disk: seq<byte>, disk': seq<byte>, g: Geometry, id: nat, depth: nat, touched: set<nat>)
    requires TableOk(t) && TableOk(t') && Changes(t, t1, id) && FirstKeptIff(t, t1, id) && id in t1.inodes && id in t'.inodes
    requires t' == t1.(inodes := t1.inodes[id := t1.inodes[id].(size := t'.inodes[id].size)]) && !t.inodes[id].isDir
    requires SameClusters(disk, disk', g, touched) && Patched(disk, disk', g, {}, t'.inodes[id].first)
    requires forall c | c in touched :: InTree(t'.fat, disk, g, g.root, depth, c)
    ensures Written(t, t', disk, disk', g, id, depth, touched)
  {
    hide TableOk, Changes, SameClusters, InTree, DirsApart, OthersSame, Elems, FirstKeptIff, Patched;
    SizeChanges(t, t1, id, t'.inodes[id].size);
    SameLength(t, t', id);
    var data, target := Elems(t'.chains[id]), t'.inodes[id].first;
    PatchedMore(disk, disk', g, data, target);
    PatchedRefl(disk, g, target);
    assert {} + touched == touched;
    if DirsApart(t, disk, g, depth) {
      ApartKept(t, t', disk, disk, g, id, depth, {}, target);
      ApartKept(t, t', disk, disk', g, id, depth, {}, target);
      FilesUntouched(t, t', disk, disk', g, id, depth, {}, touched);
    }
  }

  lemma OtherChainApart(t: Table, j: nat, id: nat, i: nat)
    requires TableOk(t) && j in t.chains && id in t.chains && j != id && i < |t.chains[j]|
    ensures t.chains[j][i] !in t.chains[id]
  {
    NotInOther(t.fat, t.chains, t.slots, id, j, i);
  }

  lemma KeptApart(disk: seq<byte>, disk': seq<byte>, g: Geometry, ch: seq<nat>, touched: set<nat>)
    requires SameClusters(disk, disk', g, touched) && GeoOk(g) && Readable(disk, g, ch) && touched !! Elems(ch)
    ensures Readable(disk', g, ch) && ChainBlocks(disk', g, ch) == ChainBlocks(disk, g, ch)
  {
    hide SameClusters, ClusterData;
    assert forall i | 0 <= i < |ch| :: ch[i] in Elems(ch);
    BlocksKept(disk, disk', g, ch, touched);
  }

  lemma KindKept(t: Table, t': Table, id: nat)
    requires Extended(t, t', id)
    ensures id in t.inodes && id in t'.inodes && t'.inodes[id].isDir == t.inodes[id].isDir
  {
    hide FreeClusters, Elems;
  }

  /** After a good write the range holds the buffer. */
  lemma WrittenSlice(disk: seq<byte>, disk': seq<byte>, g: Geometry, ch: seq<nat>, offset: nat, buf: seq<byte>)
    requires GeoOk(g) && Readable(disk, g, ch) && Readable(disk', g, ch) && buf != []
    requires offset + |buf| <= |ch| * ClusterLen(g) && GoodWrite(ClusterLen(g), offset, |buf|)
    requires ChainBlocks(disk', g, ch) == WriteLoop(ChainBlocks(disk, g, ch), ClusterLen(g), offset, buf, offset)
    ensures FileSlice(disk', g, ch, offset, offset + |buf|) == buf
  {
    hide ClusterData, WriteLoop, Flatten, GoodWrite;
    var b, blocks := ClusterLen(g), ChainBlocks(disk, g, ch);
    GoodWriteIsOverwrite(blocks, b, offset, buf);
    GetPut(Flatten(blocks, b), offset, buf);
  }

  lemma SizeTableOk(t: Table, id: nat, size: nat)
    requires TableOk(t) && id in t.inodes
    ensures TableOk(t.(inodes := t.inodes[id := t.inodes[id].(size := size)]))
  {
    hide Forest;
  }

  lemma SizeExtended(t: Table, t1: Table, id: nat, size: nat)
    requires Extended(t, t1, id) && id in t1.inodes
    ensures Extended(t, t1.(inodes := t1.inodes[id := t1.inodes[id].(size := size)]), id)
  {
    hide FreeClusters, Elems;
  }

  lemma TableWords(t: Table)
    requires TableOk(t)
    ensures Words(t.fat)
  {
    hide Forest;
  }

  /** How many clusters of `b` bytes hold `end` bytes. */
  function Needed(end: nat, b: nat): nat
    requires b > 0
  {
    (end + b - 1) / b
  }

  /** That many clusters are enough. */
  lemma Covered(end: nat, b: nat, n: nat)
    requires b > 0 && n >= Needed(end, b)
    ensures end <= n * b
  {
    var q := (end + b - 1) / b;
    Position(end + b - 1, b);
    assert q * b <= n * b;
  }

  lemma CutTableIs(t: Table, t': Table, id: nat, keep: nat)
    requires id in t.inodes && id in t.chains && keep < |t.chains[id]|
    requires forall i | 0 <= i < |t.chains[id]| :: t.chains[id][i] < |t.fat|
    requires var fat' := Clear(t.fat, t.chains[id][keep..]);
             t'.fat == if keep == 0 then fat' else fat'[t.chains[id][keep - 1] := EOC]
    requires t'.inodes == if keep == 0 then t.inodes[id := t.inodes[id].(first := 0)] else t.inodes
    requires t'.chains == t.chains[id := t.chains[id][..keep]] && t'.slots == t.slots - Elems(t.chains[id][keep..])
    ensures t' == CutTable(t, id, keep)
  {
    hide Clear;
  }

  /** How many clusters of a chain of `n` a file of `size` bytes keeps. */
  function Keep(size: nat, b: nat, n: nat): (k: nat)
    requires b > 0
    ensures k <= n
  {
    Min(n, Needed(size, b))
  }

  /** That is as few as hold the new size, or the whole chain when that does not hold it. */
  lemma KeepLeast(size: nat, b: nat, n: nat)
    requires b > 0
    ensures var k := Keep(size, b, n); (k < n ==> size <= k * b) && (k > 0 ==> (k - 1) * b < size)
  {
    var q := Needed(size, b);
    Position(size + b - 1, b);
    Covered(size, b, q);
    var k := Keep(size, b, n);
    if k > 0 {
      assert (q - 1) * b < size;
      assert (k - 1) * b <= (q - 1) * b;
    }
  }

  /** The file keeps a prefix of its chain, exactly the rest becomes free, and no other file changes. */
  ghost predicate Truncated(t: Table, t': Table, id: nat, size: nat, keep: nat) {
    && id in t.inodes && id in t.chains && keep <= |t.chains[id]|
    && t'.chains == t.chains[id := t.chains[id][..keep]]
    && t'.inodes.Keys == t.inodes.Keys
    && (forall j | j in t.inodes && j != id :: t'.inodes[j] == t.inodes[j])
    && t'.inodes[id].size == size && t'.inodes[id].isDir == t.inodes[id].isDir
    && FreeClusters(t'.fat) == FreeClusters(t.fat) + Elems(t.chains[id][keep..])
  }

  ghost predicate CutOrSame(t: Table, t1: Table, id: nat, keep: nat) {
    && id in t.inodes && id in t.chains && keep <= |t.chains[id]| && id in t1.inodes
    && t1.chains == t.chains[id := t.chains[id][..keep]]
    && (exists first :: t1.inodes == t.inodes[id := t.inodes[id].(first := first)])
    && FreeClusters(t1.fat) == FreeClusters(t.fat) + Elems(t.chains[id][keep..])
  }

  lemma TruncatedCut(t: Table, t1: Table, id: nat, keep: nat)
    requires TableOk(t) && id in t.inodes && id in t.chains && keep <= |t.chains[id]|
    requires forall i | 0 <= i < |t.chains[id]| :: t.chains[id][i] < |t.fat|
    requires t1 == if keep < |t.chains[id]| then CutTable(t, id, keep) else t
    ensures CutOrSame(t, t1, id, keep)
  {
    hide TableOk, FreeClusters;
    var ino := t.inodes[id];
    if keep < |t.chains[id]| {
      CutTableOk(t, id, keep);
      if keep == 0 {
        assert t1.inodes == t.inodes[id := ino.(first := 0)];
      } else {
        assert t1.inodes == t.inodes[id := ino.(first := ino.first)];
      }
    } else {
      assert Elems(t.chains[id][keep..]) == {};
      assert t.chains[id][..keep] == t.chains[id];
      assert t1.inodes == t.inodes[id := ino.(first := ino.first)];
    }
  }

  lemma TruncatedSize(t: Table, t1: Table, id: nat, keep: nat, size: nat)
    requires CutOrSame(t, t1, id, keep)
    ensures Truncated(t, t1.(inodes := t1.inodes[id := t1.inodes[id].(size := size)]), id, size, keep)
  {
    hide FreeClusters, Elems;
  }

  lemma TruncatedIno(t: Table, t': Table, id: nat, size: nat, keep: nat)
    requires Truncated(t, t', id, size, keep)
    ensures id in t'.inodes && t'.inodes[id].isDir == t.inodes[id].isDir
  {
  }

  predicate Matches(ino: Inode, first: nat, isDir: bool) { ino.first == first && ino.isDir == isDir }

  ghost predicate HasInode(inodes: map<nat, Inode>, first: nat, isDir: bool) {
    exists j | j in inodes :: Matches(inodes[j], first, isDir)
  }

  /** The result of interning: old inodes and chains stay; a new inode carries the given record and chain. */
  ghost predicate Interned(t: Table, t': Table, id: nat, ino: Inode, ch: seq<nat>) {
    && t'.fat == t.fat && id in t'.inodes && id in t'.chains
    && t'.inodes[id].first == ino.first && t'.inodes[id].isDir == ino.isDir
    && (forall j | j in t.inodes :: j in t'.inodes && t'.inodes[j] == t.inodes[j])
    && (forall j | j in t.chains :: j in t'.chains && t'.chains[j] == t.chains[j])
    && (if HasInode(t.inodes, ino.first, ino.isDir) then t' == t
        else id !in t.inodes && t'.inodes == t.inodes[id := ino] && t'.chains == t.chains[id := ch]
             && forall c | c in t'.slots :: c in t.slots || c in ch)
  }

  function EntryInode(e: seq<byte>): Inode
    requires IsSlot(e)
  {
    Inode(FirstCluster(e), FileSize(e), IsDir(e))
  }

  lemma TableKeys(t: Table)
    requires TableOk(t)
    ensures t.chains.Keys == t.inodes.Keys
  {
    hide Forest;
  }

  lemma OthersKept(t: Table, t': Table, id: nat)
    requires Extended(t, t', id)
    ensures id in t'.chains && forall j | j in t.chains && j != id :: j in t'.chains && t'.chains[j] == t.chains[j]
    ensures t'.inodes.Keys == t.inodes.Keys
  {
    hide FreeClusters, Elems;
  }

  lemma TableChains(t: Table, id: nat)
    requires TableOk(t) && id in t.inodes
    ensures id in t.chains
  {
  }

  /** Some slot of the directory is exactly this entry. */
  ghost predicate EntryPlaced(disk: seq<byte>, g: Geometry, chain: seq<nat>, e: seq<byte>) {
    exists k, i: nat | 0 <= k < |chain| && SLOT * i + SLOT <= ClusterLen(g) && ClusterData(disk, g, chain[k]).Some? ::
      SlotOf(ClusterData(disk, g, chain[k]).value, i) == e
  }

  lemma PlacedInSlot(disk: seq<byte>, g: Geometry, chain: seq<nat>, c: nat, i: nat, e: seq<byte>)
    requires Fits(disk, g) && c in chain && ClusterData(disk, g, c).Some? && SLOT * i + SLOT <= ClusterLen(g) && IsSlot(e)
    ensures var b := Put(ClusterData(disk, g, c).value, SLOT * i, e);
            EntryPlaced(SetCluster(disk, g, c, b), g, chain, e)
  {
    var b := Put(ClusterData(disk, g, c).value, SLOT * i, e);
    SetClusterFrame(disk, g, c, b);
    var disk' := SetCluster(disk, g, c, b);
    hide ClusterData, SetCluster;
    var k :| 0 <= k < |chain| && chain[k] == c;
    assert SlotOf(ClusterData(disk', g, chain[k]).value, i) == e;
  }

  lemma PlacedInNew(disk: seq<byte>, g: Geometry, chain: seq<nat>, k: nat, e: seq<byte>)
    requires GeoOk(g) && Fits(disk, g) && k < |chain| && ClusterData(disk, g, chain[k]).Some? && IsSlot(e)
    ensures EntryPlaced(SetCluster(disk, g, chain[k], e + Zeros(ClusterLen(g) - SLOT)), g, chain, e)
  {
    var b := e + Zeros(ClusterLen(g) - SLOT);
    SetClusterFrame(disk, g, chain[k], b);
    var disk' := SetCluster(disk, g, chain[k], b);
    hide ClusterData, SetCluster;
    assert SlotOf(ClusterData(disk', g, chain[k]).value, 0) == e;
  }

  /** Every slot of the grown directory is as before, or the new entry, or a free slot of a new cluster. */
  ghost predicate OnlyAdded(disk: seq<byte>, disk': seq<byte>, g: Geometry, chain: seq<nat>, chain': seq<nat>, e: seq<byte>) {
    && chain <= chain' && (forall k | |chain| <= k < |chain'| :: ClusterData(disk', g, chain'[k]).Some?)
    && forall k, i: nat | 0 <= k < |chain'| && SLOT * i + SLOT <= ClusterLen(g) && ClusterData(disk', g, chain'[k]).Some? ::
         AddedSlot(disk, disk', g, chain, chain', k, i, e)
  }

  ghost predicate AddedSlot(disk: seq<byte>, disk': seq<byte>, g: Geometry, chain: seq<nat>, chain': seq<nat>, k: nat, i: nat, e: seq<byte>)
    requires k < |chain'| && SLOT * i + SLOT <= ClusterLen(g) && ClusterData(disk', g, chain'[k]).Some?
  {
    var now := SlotOf(ClusterData(disk', g, chain'[k]).value, i);
    || now == e
    || (k < |chain| && ClusterData(disk, g, chain'[k]).Some? && now == SlotOf(ClusterData(disk, g, chain'[k]).value, i))
    || (k >= |chain| && now == Zeros(SLOT))
  }

  lemma AddedInSlot(disk: seq<byte>, g: Geometry, chain: seq<nat>, c: nat, i: nat, e: seq<byte>)
    requires Fits(disk, g) && c in chain && ClusterData(disk, g, c).Some? && SLOT * i + SLOT <= ClusterLen(g) && IsSlot(e)
    ensures var b := Put(ClusterData(disk, g, c).value, SLOT * i, e);
            OnlyAdded(disk, SetCluster(disk, g, c, b), g, chain, chain, e)
  {
    var was := ClusterData(disk, g, c).value;
    var b := Put(was, SLOT * i, e);
    SetClusterFrame(disk, g, c, b);
    var disk' := SetCluster(disk, g, c, b);
    hide ClusterData, SetCluster;
    forall k, j: nat | 0 <= k < |chain| && SLOT * j + SLOT <= ClusterLen(g) && ClusterData(disk', g, chain[k]).Some?
      ensures AddedSlot(disk, disk', g, chain, chain, k, j, e)
    {
      if chain[k] == c {
        SlotAfterPut(was, i, e, j);
      } else {
        assert ClusterData(disk', g, chain[k]) == ClusterData(disk, g, chain[k]);
      }
    }
  }

  lemma SlotAfterPut(b: seq<byte>, i: nat, e: seq<byte>, j: nat)
    requires IsSlot(e) && SLOT * i + SLOT <= |b| && SLOT * j + SLOT <= |b|
    ensures SlotOf(Put(b, SLOT * i, e), j) == if j == i then e else SlotOf(b, j)
  {
  }

  lemma AddedInNew(disk: seq<byte>, g: Geometry, chain: seq<nat>, c: nat, e: seq<byte>)
    requires GeoOk(g) && Fits(disk, g) && c !in chain && ClusterData(disk, g, c).Some? && IsSlot(e)
    ensures OnlyAdded(disk, SetCluster(disk, g, c, e + Zeros(ClusterLen(g) - SLOT)), g, chain, chain + [c], e)
  {
    var b := e + Zeros(ClusterLen(g) - SLOT);
    SetClusterFrame(disk, g, c, b);
    var disk', chain' := SetCluster(disk, g, c, b), chain + [c];
    hide ClusterData, SetCluster;
    forall k, j: nat | 0 <= k < |chain'| && SLOT * j + SLOT <= ClusterLen(g) && ClusterData(disk', g, chain'[k]).Some?
      ensures AddedSlot(disk, disk', g, chain, chain', k, j, e)
    {
      if k == |chain| {
        if j > 0 {
          assert SlotOf(b, j) == Zeros(SLOT);
        }
      } else {
        assert ClusterData(disk', g, chain'[k]) == ClusterData(disk, g, chain'[k]);
      }
    }
  }

  lemma AddedKept(disk: seq<byte>, disk1: seq<byte>, disk': seq<byte>, g: Geometry, chain: seq<nat>, chain': seq<nat>, e: seq<byte>)
    requires OnlyAdded(disk, disk1, g, chain, chain', e) && SameClusters(disk1, disk', g, {})
    ensures OnlyAdded(disk, disk', g, chain, chain', e)
  {
    hide ClusterData;
    forall k, i: nat | 0 <= k < |chain'| && SLOT * i + SLOT <= ClusterLen(g) && ClusterData(disk', g, chain'[k]).Some?
      ensures AddedSlot(disk, disk', g, chain, chain', k, i, e)
    {
      assert ClusterData(disk', g, chain'[k]) == ClusterData(disk1, g, chain'[k]);
      assert AddedSlot(disk, disk1, g, chain, chain', k, i, e);
    }
  }

  lemma SameLen(disk: seq<byte>, disk': seq<byte>, g: Geometry, touched: set<nat>)
    requires SameClusters(disk, disk', g, touched)
    ensures |disk'| == |disk|
  {
  }

  lemma KindKept2(t: Table, t': Table, id: nat, dir: nat)
    requires Extended(t, t', id) && dir in t.inodes && dir != id
    ensures dir in t'.inodes && t'.inodes[dir] == t.inodes[dir]
  {
    hide FreeClusters, Elems;
  }

  lemma PackedEmpty(short: seq<byte>)
    requires |short| == 11
    ensures EntryInode(Pack(short, 0x20, 0, 0)) == Inode(0, 0, false) && FirstCluster(Pack(short, 0x20, 0, 0)) == 0
  {
    PackFields(short, 0x20, 0, 0);
    hide Pack, FirstCluster, FileSize;
  }

  lemma NamesItself(short: seq<byte>)
    requires |short| == 11 && short[0] != 0x00 && short[0] != 0xE5
    ensures Names(Pack(short, 0x20, 0, 0), short)
  {
    PackFields(short, 0x20, 0, 0);
    hide Pack, FirstCluster, FileSize;
    var e := Pack(short, 0x20, 0, 0);
    assert e[0] == e[..11][0];
  }

  lemma AddedReadable(disk: seq<byte>, disk': seq<byte>, g: Geometry, chain: seq<nat>, chain': seq<nat>, e: seq<byte>)
    requires |disk'| == |disk| && Readable(disk, g, chain) && OnlyAdded(disk, disk', g, chain, chain', e)
    ensures Readable(disk', g, chain')
  {
    SomeKept(disk, disk', g);
    hide ClusterData, AddedSlot;
    forall k | 0 <= k < |chain'|
      ensures ClusterData(disk', g, chain'[k]).Some?
    {
      if k < |chain| {
        assert chain'[k] == chain[k];
      }
    }
  }

  /** After a name was added to a directory without it, the search finds the added entry. */
  lemma NewEntryFound(disk: seq<byte>, disk': seq<byte>, g: Geometry, chain: seq<nat>, chain': seq<nat>, short: seq<byte>)
    requires |short| == 11 && short[0] != 0x00 && short[0] != 0xE5 && |disk'| == |disk|
    requires Readable(disk, g, chain) && !Scan(disk, g, chain, Named(short)).At?
    requires OnlyAdded(disk, disk', g, chain, chain', Pack(short, 0x20, 0, 0)) && EntryPlaced(disk', g, chain', Pack(short, 0x20, 0, 0))
    ensures var hit := Scan(disk', g, chain', Named(short));
            hit.At? && SlotOf(ClusterData(disk', g, hit.c).value, hit.i) == Pack(short, 0x20, 0, 0)
  {
    hide Pack, ClusterData, Scan, Readable, AddedSlot, Names;
    var e := Pack(short, 0x20, 0, 0);
    NamesItself(short);
    ScanReadable(disk, g, chain, Named(short));
    AddedReadable(disk, disk', g, chain, chain', e);
    ScanReadable(disk', g, chain', Named(short));
    var k, i: nat :| 0 <= k < |chain'| && SLOT * i + SLOT <= ClusterLen(g) && ClusterData(disk', g, chain'[k]).Some?
                     && SlotOf(ClusterData(disk', g, chain'[k]).value, i) == e;
    if Scan(disk', g, chain', Named(short)).Missing? {
      ScanComplete(disk', g, chain', Named(short), k, i);
    }
    var hit := Scan(disk', g, chain', Named(short));
    var m :| 0 <= m < |chain'| && chain'[m] == hit.c;
    assert AddedSlot(disk, disk', g, chain, chain', m, hit.i, e);
    NamedIsNew(disk, disk', g, chain, chain', m, hit.i, short, e);
  }

  /** A slot with the new name in a directory that did not have it is the new entry. */
  lemma NamedIsNew(disk: seq<byte>, disk': seq<byte>, g: Geometry, chain: seq<nat>, chain': seq<nat>, m: nat, i: nat, short: seq<byte>, e: seq<byte>)
    requires chain <= chain' && m < |chain'| && SLOT * i + SLOT <= ClusterLen(g) && ClusterData(disk', g, chain'[m]).Some?
    requires Scan(disk, g, chain, Named(short)).Missing? && AddedSlot(disk, disk', g, chain, chain', m, i, e)
    requires Hit(Named(short), SlotOf(ClusterData(disk', g, chain'[m]).value, i))
    ensures SlotOf(ClusterData(disk', g, chain'[m]).value, i) == e
  {
    hide ClusterData, Scan;
    if m < |chain| {
      assert chain'[m] == chain[m];
      ScanComplete(disk, g, chain, Named(short), m, i);
    }
  }

  /** A file that holds something has a cluster. */
  lemma GotCluster(t: Table, id: nat, len: nat, b: nat)
    requires TableOk(t) && id in t.inodes && id in t.chains && len > 0 && b > 0 && |t.chains[id]| >= Needed(len, b)
    ensures t.inodes[id].first >= 2
  {
    hide TableOk, Needed;
    NeededSome(len, b);
    HeadOf(t, id);
  }

  lemma NeededSome(len: nat, b: nat)
    requires b > 0
    ensures len > 0 ==> Needed(len, b) > 0
    ensures Needed(0, b) == 0
  {
    SmallMod(b - 1, b);
    DivPositive(b, b);
    if len > 0 {
      DivPositive(len + b - 1, b);
    }
  }

  /** An entry without a cluster is found unchanged after a write to another place. */
  lemma EntryStays(t: Table, t': Table, disk: seq<byte>, disk': seq<byte>, g: Geometry, dir: nat, id: nat, depth: nat, touched: set<nat>,
                   short: seq<byte>, e: seq<byte>)
    requires TableOk(t') && Extended(t, t', id) && Written(t, t', disk, disk', g, id, depth, touched)
    requires dir in t.chains && dir != id && IsSlot(e) && FirstCluster(e) == 0 && t'.inodes[id].first != 0
    requires var hit := Scan(disk, g, t.chains[dir], Named(short));
             hit.At? && SlotOf(ClusterData(disk, g, hit.c).value, hit.i) == e
    ensures dir in t'.chains
    ensures var hit := Scan(disk', g, t'.chains[dir], Named(short));
            hit.At? && SlotOf(ClusterData(disk', g, hit.c).value, hit.i) == e
  {
    OthersKept(t, t', id);
    hide TableOk, Extended, ClusterData, Scan, FirstCluster, Patched, DirsApart, OthersSame, SlotPatched, Hit;
    var chain, data, target := t.chains[dir], Elems(t'.chains[id]), t'.inodes[id].first;
    forall k | 0 <= k < |chain|
      ensures chain[k] !in data
    {
      OtherChainApart(t', dir, id, k);
    }
    NamedKept(disk, disk', g, chain, short, data, target);
    var hit := Scan(disk, g, chain, Named(short));
    SlotKept(disk, disk', g, hit.c, hit.i, data, target);
    HeadKept(e, SlotOf(ClusterData(disk', g, hit.c).value, hit.i), target);
  }

  lemma ReopenedOther(t: Table, t': Table, id: nat, written: nat, ch: seq<nat>)
    requires TableOk(t') && written in t.inodes && t.inodes[written].first != 0 && Interned(t, t', id, Inode(0, 0, false), ch)
    ensures id in t'.chains && id in t'.inodes && id != written && !t'.inodes[id].isDir && t'.chains[id] == []
  {
    hide HasInode;
    HeadOf(t', id);
  }

  lemma NothingToRead(disk: seq<byte>, g: Geometry, ch: seq<nat>, from: nat, to: nat)
    requires GeoOk(g) && ch == []
    ensures Readable(disk, g, ch) && FileSlice(disk, g, ch, from, to) == []
  {
  }

  /** A cluster that is free starts no chain. */
  lemma FreedNotAdoptable(t: Table, first: nat, ch: seq<nat>)
    requires IsCluster(t.fat, first) && t.fat[first] == FREE
    ensures !Adoptable(t, first, ch)
  {
  }

  lemma TruncatedAway(t: Table, t': Table, disk: seq<byte>, disk': seq<byte>, g: Geometry, dir: nat, id: nat, depth: nat, touched: set<nat>,
                      short: seq<byte>, b: nat)
    requires TableOk(t) && TableOk(t') && b > 0 && id in t.chains && Truncated(t, t', id, 0, Keep(0, b, |t.chains[id]|))
    requires Written(t, t', disk, disk', g, id, depth, touched)
    requires dir in t.chains && dir != id
    requires var hit := Scan(disk, g, t.chains[dir], Named(short));
             hit.At? && OwnsEntry(t, id, SlotOf(ClusterData(disk, g, hit.c).value, hit.i))
    ensures dir in t'.chains && t'.chains[dir] == t.chains[dir] && dir in t'.inodes && t'.inodes[dir] == t.inodes[dir]
    ensures var hit := Scan(disk', g, t'.chains[dir], Named(short));
            && hit.At?
            && var e := SlotOf(ClusterData(disk', g, hit.c).value, hit.i);
            !Internable(t', FirstCluster(e), IsDir(e))
  {
    var hit := Scan(disk, g, t.chains[dir], Named(short));
    var e := SlotOf(ClusterData(disk, g, hit.c).value, hit.i);
    TruncatedFacts(t, t', id, b, FirstCluster(e));
    UniqueHead(t, id);
    TableKeys(t);
    hide TableOk, ClusterData, Scan, FirstCluster, IsDir, Patched, DirsApart, OthersSame, SlotPatched, Hit, Truncated, Adoptable, ClusterChain, Keep;
    var data, target := Elems(t'.chains[id]), t'.inodes[id].first;
    NamedKept(disk, disk', g, t.chains[dir], short, data, target);
    SlotKept(disk, disk', g, hit.c, hit.i, data, target);
    var e' := SlotOf(ClusterData(disk', g, hit.c).value, hit.i);
    HeadKept(e, e', target);
    FreedNotAdoptable(t', FirstCluster(e), ClusterChain(t'.fat, FirstCluster(e)));
  }

  lemma TruncatedFacts(t: Table, t': Table, id: nat, b: nat, first: nat)
    requires TableOk(t) && b > 0 && id in t.chains && Truncated(t, t', id, 0, Keep(0, b, |t.chains[id]|))
    requires t.inodes[id].first == first && IsCluster(t.fat, first)
    ensures t'.chains[id] == [] && IsCluster(t'.fat, first) && t'.fat[first] == FREE && t.chains[id] != []
    ensures forall j | j in t.inodes && j != id :: j in t'.inodes && t'.inodes[j] == t.inodes[j]
    ensures forall j | j in t.chains && j != id :: j in t'.chains && t'.chains[j] == t.chains[j]
    ensures t'.inodes.Keys == t.inodes.Keys
  {
    HeadIs(t, id);
    NeededSome(0, b);
    hide TableOk, Needed;
    var ch := t.chains[id];
    assert ch[0] == first;
    assert first in Elems(ch[0..]);
    assert first in FreeClusters(t'.fat);
  }

  /** The entry that named the file names it still exactly if its chain is empty before and after, or neither. */
  lemma EntryNamesIff(t: Table, t': Table, disk: seq<byte>, disk': seq<byte>, g: Geometry, id: nat, depth: nat, touched: set<nat>, c: nat, i: nat)
    requires Written(t, t', disk, disk', g, id, depth, touched)
    requires c !in t'.chains[id] && ClusterData(disk, g, c).Some? && SLOT * i + SLOT <= ClusterLen(g)
    requires FirstCluster(SlotOf(ClusterData(disk, g, c).value, i)) == t.inodes[id].first
    ensures ClusterData(disk', g, c).Some?
    ensures FirstCluster(SlotOf(ClusterData(disk', g, c).value, i)) == t'.inodes[id].first
       <==> (t'.chains[id] == [] <==> t.chains[id] == [])
  {
    hide ClusterData, FirstCluster, Patched, DirsApart, OthersSame, SlotPatched;
    var data, target := Elems(t'.chains[id]), t'.inodes[id].first;
    SlotKept(disk, disk', g, c, i, data, target);
    HeadKept(SlotOf(ClusterData(disk, g, c).value, i), SlotOf(ClusterData(disk', g, c).value, i), target);
  }

  lemma PlacedKept(disk: seq<byte>, disk': seq<byte>, g: Geometry, chain: seq<nat>, e: seq<byte>)
    requires EntryPlaced(disk, g, chain, e) && SameClusters(disk, disk', g, {})
    ensures EntryPlaced(disk', g, chain, e)
  {
    hide ClusterData;
    var k, i: nat :| 0 <= k < |chain| && SLOT * i + SLOT <= ClusterLen(g) && ClusterData(disk, g, chain[k]).Some?
                     && SlotOf(ClusterData(disk, g, chain[k]).value, i) == e;
    assert ClusterData(disk', g, chain[k]) == ClusterData(disk, g, chain[k]);
  }

  /** An inode for this first cluster and kind is there, or can soundly be added. */
  ghost predicate Internable(t: Table, first: nat, isDir: bool) {
    HasInode(t.inodes, first, isDir) || Adoptable(t, first, ClusterChain(t.fat, first))
  }

  /** A chain that can be adopted is the one the walk finds. */
  lemma AdoptableIs(t: Table, first: nat, ch: seq<nat>)
    requires Adoptable(t, first, ch) && |t.fat| <= GUARD
    ensures ch == ClusterChain(t.fat, first)
  {
    if ch != [] {
      GuardSuffices(t.fat, ch);
    }
  }

  /** With these chains, the table with the new inode is sound. */
  ghost predicate Completes(t: Table, id: nat, ino: Inode, chains: map<nat, seq<nat>>, slots: map<nat, Slot>) {
    TableOk(Table(t.fat, t.inodes[id := ino], chains, slots))
  }

  /** A new inode keeps the table sound, for some choice of chains, exactly when the chain it starts is adoptable. */
  lemma AdoptTableIff(t: Table, id: nat, ino: Inode)
    requires TableOk(t) && id !in t.inodes
    ensures var ch := ClusterChain(t.fat, ino.first);
            && (Adoptable(t, ino.first, ch) ==> TableOk(AdoptTable(t, id, ino, ch)))
            && (forall chains, slots | Completes(t, id, ino, chains, slots) :: Adoptable(t, ino.first, ch))
  {
    hide TableOk, Adoptable, ClusterChain, AddSlots;
    var ch := ClusterChain(t.fat, ino.first);
    if Adoptable(t, ino.first, ch) {
      AdoptTableOk(t, id, ino, ch);
    }
    forall chains, slots | Completes(t, id, ino, chains, slots)
      ensures Adoptable(t, ino.first, ch)
    {
      AdoptOnlyIf(t, id, ino, chains, slots);
    }
  }

  lemma AdoptOnlyIf(t: Table, id: nat, ino: Inode, chains: map<nat, seq<nat>>, slots: map<nat, Slot>)
    requires TableOk(t) && id !in t.inodes && TableOk(Table(t.fat, t.inodes[id := ino], chains, slots))
    ensures Adoptable(t, ino.first, ClusterChain(t.fat, ino.first))
  {
    var t' := Table(t.fat, t.inodes[id := ino], chains, slots);
    ChainOf(t', id);
    HeadIs(t', id);
    hide TableOk, ClusterChain, Linked;
    var ch := chains[id];
    forall i | 0 <= i < |ch|
      ensures ch[i] !in t.slots
    {
      if ch[i] in t.slots {
        OwnerOf(t, ch[i]);
        var j := t.slots[ch[i]].id;
        ChainOf(t, j);
        ChainOf(t', j);
        OtherChainApart(t', j, id, t.slots[ch[i]].i);
      }
    }
  }

  lemma OwnerOf(t: Table, c: nat)
    requires TableOk(t) && c in t.slots
    ensures var s := t.slots[c]; s.id in t.inodes && s.id in t.chains && s.i < |t.chains[s.id]| && t.chains[s.id][s.i] == c
  {
    hide Linked;
  }

  lemma HeadIs(t: Table, id: nat)
    requires TableOk(t) && id in t.inodes
    ensures id in t.chains && HeadOk(t.fat, t.inodes[id].first, t.chains[id]) && Linked(t.fat, t.chains[id])
  {
  }

  lemma EmptyInternable(t: Table)
    ensures Internable(t, 0, false)
  {
  }

  lemma TableSize(t: Table)
    requires TableOk(t)
    ensures |t.fat| <= GUARD
  {
    hide Forest;
  }

  lemma FreeNotInChain(t: Table, id: nat, c: nat)
    requires TableOk(t) && id in t.chains && IsCluster(t.fat, c) && t.fat[c] == FREE
    ensures c !in t.chains[id]
  {
    assert Linked(t.fat, t.chains[id]);
  }

  /** A cluster allocated for a new directory is still nobody's after its parent was extended. */
  lemma NewDirAdoptable(t: Table, t1: Table, t2: Table, dir: nat, c: nat)
    requires TableOk(t) && IsCluster(t.fat, c) && t.fat[c] == FREE && t1 == t.(fat := t.fat[c := EOC])
    requires TableOk(t1) && TableOk(t2) && Extended(t1, t2, dir) && c !in t.slots
    ensures Adoptable(t2, c, [c]) && !HasInode(t2.inodes, c, true)
  {
    hide TableOk;
    NotInExtended(t1, t2, dir, c);
    hide Extended;
    forall j | j in t2.inodes && IsCluster(t2.fat, t2.inodes[j].first)
      ensures t2.inodes[j].first in t2.slots
    {
      HeadSlot(t2, j);
    }
  }

  lemma HeadSlot(t: Table, j: nat)
    requires TableOk(t) && j in t.inodes && IsCluster(t.fat, t.inodes[j].first)
    ensures t.inodes[j].first in t.slots
  {
    assert t.slots[t.chains[j][0]] == Slot(j, 0);
  }

  lemma NotInExtended(t1: Table, t2: Table, dir: nat, c: nat)
    requires TableOk(t1) && TableOk(t2) && Extended(t1, t2, dir) && c !in t1.slots
    requires IsCluster(t1.fat, c) && t1.fat[c] == EOC
    ensures c !in t2.slots && IsCluster(t2.fat, c) && t2.fat[c] == EOC
  {
    hide Linked;
    var ch, ch' := t1.chains[dir], t2.chains[dir];
    forall i: nat | i < |ch'|
      ensures ch'[i] != c
    {
      if i < |ch| {
        assert t1.slots[ch[i]] == Slot(dir, i);
      } else {
        assert ch'[|ch|..][i - |ch|] == ch'[i];
        assert ch'[i] in FreeClusters(t1.fat);
      }
    }
    forall x | x in t2.slots
      ensures x != c
    {
      var id := t2.slots[x].id;
      if id != dir {
        assert t1.slots[t1.chains[id][t2.slots[x].i]] == Slot(id, t2.slots[x].i);
      }
    }
  }

  /** The entry names the head of `id`'s own chain. */
  ghost predicate OwnsEntry(t: Table, id: nat, e: seq<byte>)
    requires IsSlot(e)
  {
    && id in t.inodes && id in t.chains && IsCluster(t.fat, FirstCluster(e))
    && t.inodes[id].first == FirstCluster(e) && t.inodes[id].isDir == IsDir(e)
  }

  ghost function RemoveInode(t: Table, id: nat): Table {
    Table(t.fat, t.inodes - {id}, t.chains - {id}, if id in t.chains then t.slots - Elems(t.chains[id]) else t.slots)
  }

  /** The file and its chain are gone; everything else is as it was. */
  ghost function UnlinkTable(t: Table, id: nat): Table {
    if id in t.chains && forall i | 0 <= i < |t.chains[id]| :: t.chains[id][i] < |t.fat|
    then RemoveInode(t, id).(fat := Clear(t.fat, t.chains[id]))
    else t
  }

  lemma UnlinkIs(t: Table, t1: Table, id: nat, e: seq<byte>)
    requires TableOk(t) && IsSlot(e) && OwnsEntry(t, id, e)
    requires forall i | 0 <= i < |ClusterChain(t.fat, FirstCluster(e))| :: ClusterChain(t.fat, FirstCluster(e))[i] < |t.fat|
    requires t1 == t.(fat := Clear(t.fat, ClusterChain(t.fat, FirstCluster(e))))
    ensures RemoveInode(t1, id) == UnlinkTable(t, id)
    ensures FirstCluster(e) >= 2 && id in t.inodes && t.inodes[id].first == FirstCluster(e) && t.inodes[id].isDir == IsDir(e)
  {
    hide TableOk, Clear, ClusterChain;
    ChainOf(t, id);
  }

  lemma OwnedFirst(t: Table, id: nat, e: seq<byte>)
    requires IsSlot(e) && OwnsEntry(t, id, e)
    ensures FirstCluster(e) >= 2
  {
  }

  lemma UnlinkTableOk(t: Table, id: nat, e: seq<byte>)
    requires TableOk(t) && IsSlot(e) && OwnsEntry(t, id, e)
    ensures ClusterChain(t.fat, FirstCluster(e)) == t.chains[id]
    ensures forall i | 0 <= i < |t.chains[id]| :: t.chains[id][i] < |t.fat|
    ensures TableOk(UnlinkTable(t, id))
    ensures FreeClusters(UnlinkTable(t, id).fat) == FreeClusters(t.fat) + Elems(t.chains[id])
    ensures forall j | j in t.inodes && t.inodes[j].first == FirstCluster(e) :: j == id
  {
    hide TableOk, FreeClusters, ClusterChain, Clear, Elems;
    ChainOf(t, id);
    UniqueHead(t, id);
    var t1 := CutTable(t, id, 0);
    CutTableOk(t, id, 0);
    assert t.chains[id][0..] == t.chains[id];
    DropTableOk(t1, id);
    var u := UnlinkTable(t, id);
    assert u == Table(t1.fat, t1.inodes - {id}, t1.chains - {id}, t1.slots);
  }

  lemma UniqueHead(t: Table, id: nat)
    requires TableOk(t) && id in t.inodes && IsCluster(t.fat, t.inodes[id].first)
    ensures forall j | j in t.inodes && t.inodes[j].first == t.inodes[id].first :: j == id
  {
    hide Linked;
    forall j | j in t.inodes && t.inodes[j].first == t.inodes[id].first
      ensures j == id
    {
      assert t.slots[t.chains[j][0]] == Slot(j, 0);
      assert t.slots[t.chains[id][0]] == Slot(id, 0);
    }
  }

  lemma DropTableOk(t: Table, id: nat)
    requires TableOk(t) && id in t.inodes && id in t.chains && t.chains[id] == []
    ensures TableOk(Table(t.fat, t.inodes - {id}, t.chains - {id}, t.slots))
  {
    DropEmpty(t.fat, t.chains, t.slots, id);
    hide Forest;
  }

  lemma ChainInRange(fat: Fat, first: nat)
    ensures forall i | 0 <= i < |ClusterChain(fat, first)| :: ClusterChain(fat, first)[i] < |fat|
  {
  }

  lemma ClearWords(fat: Fat, cs: seq<nat>)
    requires Words(fat) && forall i | 0 <= i < |cs| :: cs[i] < |fat|
    ensures Words(Clear(fat, cs)) && |Clear(fat, cs)| == |fat|
  {
  }

  predicate Spares(cs: seq<nat>, ch: seq<nat>) { forall i | 0 <= i < |cs| :: cs[i] !in ch }

  /** Freeing clusters keeps a file's chain exactly when none of them is in it. */
  lemma ClearKeepsIff(fat: Fat, ch: seq<nat>, cs: seq<nat>)
    requires Linked(fat, ch) && forall i | 0 <= i < |cs| :: cs[i] < |fat|
    ensures Linked(Clear(fat, cs), ch) <==> Spares(cs, ch)
  {
    var fat' := Clear(fat, cs);
    if Spares(cs, ch) {
      forall i | 0 <= i < |ch|
        ensures fat'[ch[i]] == fat[ch[i]]
      {
        assert ch[i] in ch;
      }
      LinkedKept(fat, fat', ch);
    } else {
      var i :| 0 <= i < |cs| && cs[i] in ch;
      assert fat'[cs[i]] == FREE;
    }
  }

  /** The directory is there and has an entry of this name. */
  ghost predicate UnlinkFinds(t: Table, disk: seq<byte>, g: Geometry, dir: nat, short: seq<byte>) {
    dir in t.inodes && t.inodes[dir].isDir && dir in t.chains && Scan(disk, g, t.chains[dir], Named(short)).At?
  }

  /** The clusters that unlinking an entry frees. */
  function FreedBy(fat: Fat, e: seq<byte>): seq<nat>
    requires IsSlot(e)
  {
    if FirstCluster(e) >= 2 then ClusterChain(fat, FirstCluster(e)) else []
  }

  lemma FreedInRange(fat: Fat, e: seq<byte>)
    requires IsSlot(e)
    ensures forall i | 0 <= i < |FreedBy(fat, e)| :: FreedBy(fat, e)[i] < |fat|
    ensures FreedBy(fat, e) == if FirstCluster(e) >= 2 then ClusterChain(fat, FirstCluster(e)) else []
    ensures FirstCluster(e) < 2 ==> Clear(fat, FreedBy(fat, e)) == fat
  {
    hide FirstCluster;
  }

  /** Everyone who is left after an unlink keeps all clusters. */
  ghost predicate OthersSpared(t: Table, t': Table, cs: seq<nat>) {
    forall j | j in t'.inodes && j in t.chains :: Spares(cs, t.chains[j])
  }

  /** The table without the entry's clusters, and without the lowest inode that matches the entry. */
  ghost predicate Dropped(t: Table, t': Table, e: seq<byte>)
    requires IsSlot(e)
  {
    var cs := FreedBy(t.fat, e);
    && (forall i | 0 <= i < |cs| :: cs[i] < |t.fat|) && t'.fat == Clear(t.fat, cs)
    && exists d :: t'.inodes == t.inodes - {d} && t'.chains == t.chains - {d}
                   && (if HasInode(t.inodes, FirstCluster(e), IsDir(e)) then d in t.inodes && Matches(t.inodes[d], FirstCluster(e), IsDir(e))
                       else d !in t.inodes)
  }

  lemma DroppedIs(t: Table, t': Table, e: seq<byte>, d: nat)
    requires IsSlot(e) && t.chains.Keys == t.inodes.Keys && forall i | 0 <= i < |FreedBy(t.fat, e)| :: FreedBy(t.fat, e)[i] < |t.fat|
    requires t' == RemoveInode(t.(fat := Clear(t.fat, FreedBy(t.fat, e))), d)
    requires if HasInode(t.inodes, FirstCluster(e), IsDir(e)) then d in t.inodes && Matches(t.inodes[d], FirstCluster(e), IsDir(e))
             else t' == t.(fat := Clear(t.fat, FreedBy(t.fat, e)))
    ensures Dropped(t, t', e)
  {
    hide HasInode, FirstCluster, IsDir, FreedBy, Clear;
    assert t'.inodes == t.inodes - {d} && t'.chains == t.chains - {d};
    if !HasInode(t.inodes, FirstCluster(e), IsDir(e)) {
      assert d !in t'.inodes;
    }
  }

  lemma NothingRemoved(t: Table, d: nat)
    requires d !in t.inodes && d !in t.chains
    ensures RemoveInode(t, d) == t
  {
    assert t.inodes - {d} == t.inodes && t.chains - {d} == t.chains;
  }

  /** After freeing clusters and dropping one inode, the table is sound exactly when the others have none of them. */
  lemma RemoveClearedIff(t: Table, t': Table, cs: seq<nat>, d: nat)
    requires TableOk(t) && (forall i | 0 <= i < |cs| :: cs[i] < |t.fat|) && t' == RemoveInode(t.(fat := Clear(t.fat, cs)), d)
    ensures TableOk(t') <==> OthersSpared(t, t', cs)
  {
    hide TableOk, Linked, Spares, Clear, Elems, HeadOk;
    TableKeys(t);
    ClearWords2(t, cs);
    RemovedSlots(t, t', d);
    forall j | j in t'.inodes
      ensures j in t'.chains && t'.chains[j] == t.chains[j] && (Linked(t'.fat, t'.chains[j]) <==> Spares(cs, t.chains[j]))
    {
      HeadIs(t, j);
      ClearKeepsIff(t.fat, t.chains[j], cs);
    }
    if OthersSpared(t, t', cs) {
      TableFrom(t');
    } else {
      var j :| j in t'.inodes && j in t.chains && !Spares(cs, t.chains[j]);
      if TableOk(t') {
        HeadIs(t', j);
      }
    }
  }

  lemma TableFrom(t: Table)
    requires Words(t.fat) && |t.fat| <= GUARD && t.chains.Keys == t.inodes.Keys
    requires forall j | j in t.inodes :: j in t.chains && Linked(t.fat, t.chains[j])
    requires forall j | j in t.inodes :: HeadOk(t.fat, t.inodes[j].first, t.chains[j])
    requires forall j, i: nat | j in t.chains && i < |t.chains[j]| :: t.chains[j][i] in t.slots && t.slots[t.chains[j][i]] == Slot(j, i)
    requires forall c | c in t.slots ::
               t.slots[c].id in t.chains && t.slots[c].i < |t.chains[t.slots[c].id]| && t.chains[t.slots[c].id][t.slots[c].i] == c
    ensures TableOk(t)
  {
    hide Linked;
  }

  lemma ClearWords2(t: Table, cs: seq<nat>)
    requires TableOk(t) && forall i | 0 <= i < |cs| :: cs[i] < |t.fat|
    ensures Words(Clear(t.fat, cs)) && |Clear(t.fat, cs)| == |t.fat| <= GUARD
  {
    hide Forest;
    ClearWords(t.fat, cs);
  }

  lemma RemovedSlots(t: Table, t': Table, d: nat)
    requires TableOk(t) && t'.inodes == t.inodes - {d} && t'.chains == t.chains - {d} && |t'.fat| == |t.fat|
    requires t'.slots == if d in t.chains then t.slots - Elems(t.chains[d]) else t.slots
    ensures t'.chains.Keys == t'.inodes.Keys
    ensures forall j, i: nat | j in t'.chains && i < |t'.chains[j]| :: t'.chains[j][i] in t'.slots && t'.slots[t'.chains[j][i]] == Slot(j, i)
    ensures forall c | c in t'.slots ::
              t'.slots[c].id in t'.chains && t'.slots[c].i < |t'.chains[t'.slots[c].id]| && t'.chains[t'.slots[c].id][t'.slots[c].i] == c
    ensures forall j | j in t'.inodes :: HeadOk(t'.fat, t'.inodes[j].first, t'.chains[j])
  {
    hide Linked;
    forall j, i: nat | j in t'.chains && i < |t'.chains[j]|
      ensures t'.chains[j][i] in t'.slots && t'.slots[t'.chains[j][i]] == Slot(j, i)
    {
      assert t.slots[t.chains[j][i]] == Slot(j, i);
      if d in t.chains {
        OtherChainApart(t, j, d, i);
      }
    }
    forall c | c in t'.slots
      ensures t'.slots[c].id in t'.chains && t'.slots[c].i < |t'.chains[t'.slots[c].id]| && t'.chains[t'.slots[c].id][t'.slots[c].i] == c
    {
      OwnerOf(t, c);
      assert d in t.chains ==> c !in t.chains[d];
    }
  }

  /** Freeing clusters can only shorten what a walk finds. */
  lemma {:induction false} WalkCleared(fat: Fat, cs: seq<nat>, c: nat, guard: nat)
    requires forall i | 0 <= i < |cs| :: cs[i] < |fat|
    ensures Walk(Clear(fat, cs), c, guard) <= Walk(fat, c, guard)
    decreases guard
  {
    var fat' := Clear(fat, cs);
    if guard > 0 && IsCluster(fat, c) && !EndMark(fat[c]) {
      WalkCleared(fat, cs, fat[c], guard - 1);
      assert fat'[c] == fat[c] || fat'[c] == FREE;
    }
  }

  lemma ClearedChain(fat: Fat, cs: seq<nat>, first: nat)
    requires forall i | 0 <= i < |cs| :: cs[i] < |fat|
    ensures ClusterChain(Clear(fat, cs), first) <= ClusterChain(fat, first)
  {
    WalkCleared(fat, cs, first, GUARD);
  }

  /** One entry of that name was marked free, and nothing else happened to any cluster. */
  ghost predicate EntryRemoved(disk: seq<byte>, disk': seq<byte>, g: Geometry, chain: seq<nat>, short: seq<byte>) {
    exists c, i: nat | c in chain && ClusterData(disk, g, c).Some? && SLOT * i + SLOT <= ClusterLen(g) ::
      SlotFreed(disk, disk', g, c, i, short)
  }

  ghost predicate SlotFreed(disk: seq<byte>, disk': seq<byte>, g: Geometry, c: nat, i: nat, short: seq<byte>)
    requires ClusterData(disk, g, c).Some? && SLOT * i + SLOT <= ClusterLen(g)
  {
    var b := ClusterData(disk, g, c).value;
    && Name(SlotOf(b, i)) == short && !IsFree(SlotOf(b, i))
    && ClusterData(disk', g, c) == Some(Put(b, SLOT * i, [0xE5])) && SameClusters(disk, disk', g, {c})
  }

  lemma RemovedHere(disk: seq<byte>, g: Geometry, chain: seq<nat>, c: nat, i: nat, short: seq<byte>)
    requires Fits(disk, g) && c in chain && ClusterData(disk, g, c).Some? && SLOT * i + SLOT <= ClusterLen(g)
    requires Hit(Removable(short), SlotOf(ClusterData(disk, g, c).value, i)) && ClusterData(disk, g, c).value[SLOT * i] != 0x00
    ensures EntryRemoved(disk, SetCluster(disk, g, c, Put(ClusterData(disk, g, c).value, SLOT * i, [0xE5])), g, chain, short)
  {
    var b := ClusterData(disk, g, c).value;
    SetClusterFrame(disk, g, c, Put(b, SLOT * i, [0xE5]));
    assert SlotOf(b, i)[0] == b[SLOT * i];
    hide ClusterData, SetCluster, SameClusters;
    assert SlotFreed(disk, SetCluster(disk, g, c, Put(b, SLOT * i, [0xE5])), g, c, i, short);
  }

  lemma RemovedKept(disk: seq<byte>, disk1: seq<byte>, disk': seq<byte>, g: Geometry, chain: seq<nat>, chain': seq<nat>, short: seq<byte>)
    requires EntryRemoved(disk, disk1, g, chain, short) && SameClusters(disk1, disk', g, {}) && chain <= chain'
    ensures EntryRemoved(disk, disk', g, chain', short)
  {
    hide ClusterData, SameClusters;
    var c, i: nat :| c in chain && ClusterData(disk, g, c).Some? && SLOT * i + SLOT <= ClusterLen(g) && SlotFreed(disk, disk1, g, c, i, short);
    SameClustersTrans(disk, disk1, disk', g, {c}, {});
    assert {c} + {} == {c};
    SameAt(disk1, disk', g, c);
    assert SlotFreed(disk, disk', g, c, i, short);
  }

  lemma SameAt(disk: seq<byte>, disk': seq<byte>, g: Geometry, c: nat)
    requires SameClusters(disk, disk', g, {})
    ensures ClusterData(disk', g, c) == ClusterData(disk, g, c)
  {
  }

  /** A truncated file's entry still names its old first cluster. When another file has got that cluster since, as the
      first free one, unlinking the truncated file's name destroys the other file. */
  lemma StaleEntryDestroys(t: Table, id: nat, other: nat, c: nat)
    requires TableOk(t) && id in t.inodes && id in t.chains && other in t.inodes && other in t.chains && other != id
    requires t.chains[id] != [] && c == t.chains[id][0]
    requires forall i | 0 <= i < |t.chains[id]| :: t.chains[id][i] < |t.fat|
    requires forall x | 2 <= x < c :: t.fat[x] != FREE && x !in t.chains[id]
    ensures var t1 := CutTable(t, id, 0);
            && TableOk(t1) && IsCluster(t1.fat, c) && t1.fat[c] == FREE && (forall x | 2 <= x < c :: t1.fat[x] != FREE)
            && other in t1.inodes && other in t1.chains && (forall i | 0 <= i < |t1.chains[other]| :: t1.chains[other][i] < |t1.fat|)
            && var t2 := LinkTable(t1, other, c);
            && TableOk(t2) && c in t2.chains[other]
            && (forall i | 0 <= i < |ClusterChain(t2.fat, c)| :: ClusterChain(t2.fat, c)[i] < |t2.fat|)
            && !Linked(Clear(t2.fat, ClusterChain(t2.fat, c)), t2.chains[other])
  {
    HeadIs(t, id);
    CutTableOk(t, id, 0);
    var t1 := CutTable(t, id, 0);
    assert t.chains[id][0..] == t.chains[id];
    hide TableOk;
    LinkTableOk(t1, other, c);
    var t2 := LinkTable(t1, other, c);
    HeadIs(t2, other);
    ChainInRange(t2.fat, c);
    ClearKeepsIff(t2.fat, t2.chains[other], ClusterChain(t2.fat, c));
    assert ClusterChain(t2.fat, c)[0] == c;
  }

  /** Adding an entry lists no subdirectory but the one the entry names. */
  lemma AddedListsLess(disk: seq<byte>, disk': seq<byte>, g: Geometry, chain: seq<nat>, chain': seq<nat>, e: seq<byte>, made: nat)
    requires OnlyAdded(disk, disk', g, chain, chain', e) && SameClusters(disk, disk', g, Elems(chain')) && IsSlot(e)
    requires forall d | d in SubdirAt(e) :: d == made
    ensures ListsLess(disk, disk', g, made)
    ensures forall k, d: nat | |chain| <= k < |chain'| && d != made :: !Lists(disk', g, chain'[k], d)
  {
    hide Lists;
    forall k, d: nat | 0 <= k < |chain'| && d != made
      ensures Lists(disk', g, chain'[k], d) ==> k < |chain| && Lists(disk, g, chain'[k], d)
    {
      SlotLists(disk, disk', g, chain, chain', e, made, k, d);
    }
    forall x: nat, d: nat | Lists(disk', g, x, d) && d != made
      ensures Lists(disk, g, x, d)
    {
      if x in chain' {
        var k :| 0 <= k < |chain'| && chain'[k] == x;
      } else {
        SameLists(disk, disk', g, Elems(chain'), x, d);
      }
    }
  }

  lemma SameLists(disk: seq<byte>, disk': seq<byte>, g: Geometry, touched: set<nat>, x: nat, d: nat)
    requires SameClusters(disk, disk', g, touched) && x !in touched
    ensures Lists(disk', g, x, d) == Lists(disk, g, x, d)
  {
    hide ClusterData, ListedIn;
  }

  lemma SlotLists(disk: seq<byte>, disk': seq<byte>, g: Geometry, chain: seq<nat>, chain': seq<nat>, e: seq<byte>, made: nat, k: nat, d: nat)
    requires OnlyAdded(disk, disk', g, chain, chain', e) && IsSlot(e) && k < |chain'| && d != made
    requires forall x | x in SubdirAt(e) :: x == made
    ensures Lists(disk', g, chain'[k], d) ==> k < |chain| && Lists(disk, g, chain'[k], d)
  {
    hide ClusterData, SubdirAt;
    ZeroLists();
    if Lists(disk', g, chain'[k], d) {
      var b := ClusterData(disk', g, chain'[k]).value;
      var i: nat :| SLOT * i + SLOT <= |b| && SubdirAt(SlotOf(b, i)) == [d];
      assert AddedSlot(disk, disk', g, chain, chain', k, i, e);
      assert d in SubdirAt(SlotOf(b, i));
    }
  }

  lemma ZeroLists()
    ensures SubdirAt(Zeros(SLOT)) == []
  {
  }

  lemma LinkGrows(t: Table, id: nat, c: nat)
    requires TableOk(t) && id in t.inodes && id in t.chains && t.chains[id] != [] && IsCluster(t.fat, c) && t.fat[c] == FREE
    requires forall i | 0 <= i < |t.chains[id]| :: t.chains[id][i] < |t.fat|
    ensures ChainsGrow(t.fat, LinkTable(t, id, c).fat, c)
  {
    HeadIs(t, id);
    FreeNotInChain(t, id, c);
    hide TableOk;
    var ch := t.chains[id];
    var last := ch[|ch| - 1];
    var fat' := LinkTable(t, id, c).fat;
    forall d: nat
      ensures ChainGrows(t.fat, fat', c, d)
    {
      WalkGrows(t.fat, fat', last, c, d, GUARD);
    }
  }

  lemma SameGrows(fat: Fat)
    ensures ChainsGrow(fat, fat, 0)
  {
    forall d: nat
      ensures ChainGrows(fat, fat, 0, d)
    {
    }
  }

  lemma MarkGrows(fat: Fat, c: nat, fat': Fat, added: nat)
    requires IsCluster(fat, c) && fat[c] == FREE && ChainsGrow(fat[c := EOC], fat', added)
    ensures ChainsGrow(fat, fat', added)
  {
    hide ClusterChain;
    forall d: nat
      ensures ChainGrows(fat, fat', added, d)
    {
      Grown(fat[c := EOC], fat', added, d);
      MarkedChain(fat, c, d);
    }
  }

  lemma MarkedChain(fat: Fat, c: nat, d: nat)
    requires IsCluster(fat, c) && fat[c] == FREE
    ensures ClusterChain(fat[c := EOC], d) == ClusterChain(fat, d)
  {
    WalkMarked(fat, c, d, GUARD);
  }

  lemma ClearGrows(fat: Fat, cs: seq<nat>)
    requires forall i | 0 <= i < |cs| :: cs[i] < |fat|
    ensures ChainsGrow(fat, Clear(fat, cs), 0)
  {
    hide ClusterChain, Clear;
    forall d: nat
      ensures ChainGrows(fat, Clear(fat, cs), 0, d)
    {
      ClearedChain(fat, cs, d);
    }
  }

  /** No cluster is numbered 0. */
  lemma NoClusterZero(fat: Fat, disk: seq<byte>, g: Geometry)
    ensures ClusterChain(fat, 0) == [] && forall d: nat :: !Lists(disk, g, 0, d)
  {
  }

  /** The files after an operation on directories: the old ones with their chains, and new ones without clusters. */
  ghost predicate FilesFrom(t: Table, t': Table) {
    forall j | j in t'.inodes && j in t'.chains && !t'.inodes[j].isDir ::
      t'.chains[j] == [] || (j in t.inodes && j in t.chains && !t.inodes[j].isDir && t'.chains[j] == t.chains[j])
  }

  /** Directory operations keep the directories apart from the files. */
  lemma ApartAfter(t: Table, t': Table, disk: seq<byte>, disk': seq<byte>, g: Geometry, depth: nat, added: nat, made: nat)
    requires DirsApart(t, disk, g, depth) && FilesFrom(t, t') && |t'.fat| == |t.fat|
    requires forall x: nat | IsDirCluster(t, x) :: t'.fat[x] != FREE
    requires IsCluster(t'.fat, added) ==> IsDirCluster(t', added)
    requires IsCluster(t'.fat, made) ==> IsDirCluster(t', made)
    requires ChainsGrow(t.fat, t'.fat, added) && ListsLess(disk, disk', g, made) && (forall d: nat | d != made :: !Lists(disk', g, added, d))
    requires ClusterChain(t'.fat, made) <= [made] && (forall d: nat :: !Lists(disk', g, made, d))
    ensures DirsApart(t', disk', g, depth)
  {
    hide InTree, ClusterChain, ChainsGrow, ListsLess, Lists;
    forall x: nat | InTree(t'.fat, disk', g, g.root, depth, x)
      ensures IsDirCluster(t', x)
    {
      TreeClusters(t'.fat, disk', g, g.root, depth, x);
      TreeWithin(t.fat, t'.fat, disk, disk', g, g.root, depth, added, made, x);
      if x != added && x != made {
        assert IsDirCluster(t, x);
      }
    }
  }

  /** However deep one looks, directories that were apart from the files still are. */
  ghost predicate StaysApart(t: Table, t': Table, disk: seq<byte>, disk': seq<byte>, g: Geometry) {
    forall depth: nat | DirsApart(t, disk, g, depth) :: DirsApart(t', disk', g, depth)
  }

  /** A directory's chain has at most one new cluster, `added`, and no other chain is longer. */
  ghost predicate GrewBy(t: Table, t': Table, id: nat, added: nat) {
    && id in t.chains && id in t'.chains && ChainsGrow(t.fat, t'.fat, added)
    && (if added == 0 then t'.chains[id] == t.chains[id] else t'.chains[id] == t.chains[id] + [added])
  }

  lemma GrewNone(t: Table, id: nat)
    requires id in t.chains
    ensures GrewBy(t, t, id, 0)
  {
    SameGrows(t.fat);
  }

  lemma GrewOne(t: Table, id: nat, c: nat)
    requires TableOk(t) && id in t.inodes && id in t.chains && t.chains[id] != [] && IsCluster(t.fat, c) && t.fat[c] == FREE
    requires forall i | 0 <= i < |t.chains[id]| :: t.chains[id][i] < |t.fat|
    ensures GrewBy(t, LinkTable(t, id, c), id, c)
  {
    hide TableOk, ChainsGrow;
    LinkGrows(t, id, c);
  }

  /** Extending a directory frees nothing. */
  lemma StillUsed(t: Table, t': Table, id: nat, x: nat)
    requires TableOk(t') && Extended(t, t', id) && x < |t.fat| && t.fat[x] != FREE
    ensures x < |t'.fat| && t'.fat[x] != FREE
  {
    KindKept(t, t', id);
    HeadIs(t', id);
    hide TableOk;
    if x in t'.chains[id] {
      var i :| 0 <= i < |t'.chains[id]| && t'.chains[id][i] == x;
    }
  }

  /** Clusters of directories are not clusters of files. */
  lemma DirChain(t: Table, id: nat, c: nat)
    requires TableOk(t) && id in t.inodes && id in t.chains && t.inodes[id].isDir && c in t.chains[id]
    ensures IsDirCluster(t, c)
  {
    HeadIs(t, id);
    hide TableOk, Linked;
    var i :| 0 <= i < |t.chains[id]| && t.chains[id][i] == c;
    InRange(t, id, i);
    forall j | j in t.inodes && j in t.chains && !t.inodes[j].isDir
      ensures c !in t.chains[j]
    {
      OtherChainApart(t, id, j, i);
    }
  }

  lemma InRange(t: Table, id: nat, i: nat)
    requires id in t.chains && Linked(t.fat, t.chains[id]) && i < |t.chains[id]|
    ensures IsCluster(t.fat, t.chains[id][i]) && t.fat[t.chains[id][i]] != FREE
  {
  }

  /** Files after a directory was extended and an inode interned. */
  lemma FilesAfter(t: Table, t1: Table, t2: Table, dir: nat, id: nat, ino: Inode, ch: seq<nat>)
    requires Extended(t, t1, dir) && t.inodes[dir].isDir && Interned(t1, t2, id, ino, ch) && (ino.isDir || ch == [])
    requires t1.chains.Keys == t1.inodes.Keys
    ensures FilesFrom(t, t2)
  {
    hide FreeClusters, Elems, HasInode;
  }

  lemma CreateApart(t: Table, t1: Table, t2: Table, disk: seq<byte>, disk': seq<byte>, g: Geometry, dir: nat, id: nat, added: nat, short: seq<byte>)
    requires TableOk(t) && TableOk(t1) && TableOk(t2) && dir in t.inodes && t.inodes[dir].isDir && |short| == 11
    requires Extended(t, t1, dir) && GrewBy(t, t1, dir, added) && Interned(t1, t2, id, Inode(0, 0, false), ClusterChain(t2.fat, 0))
    requires OnlyAdded(disk, disk', g, t.chains[dir], t1.chains[dir], Pack(short, 0x20, 0, 0))
    requires SameClusters(disk, disk', g, Elems(t1.chains[dir]))
    ensures StaysApart(t, t2, disk, disk', g)
  {
    NoClusterZero(t2.fat, disk', g);
    PlainEntry(short);
    TableKeys(t1);
    FilesAfter(t, t1, t2, dir, id, Inode(0, 0, false), []);
    AddedListsLess(disk, disk', g, t.chains[dir], t1.chains[dir], Pack(short, 0x20, 0, 0), 0);
    GrownDirectory(t, t1, t2, dir, id, Inode(0, 0, false), ClusterChain(t2.fat, 0), added);
    hide TableOk, Extended, OnlyAdded, SameClusters, Pack, ChainsGrow, ListsLess, Lists, ClusterChain, DirsApart, FilesFrom, IsDirCluster, Interned;
    if added != 0 {
      assert t1.chains[dir][|t.chains[dir]|] == added;
    }
    forall depth: nat | DirsApart(t, disk, g, depth)
      ensures DirsApart(t2, disk', g, depth)
    {
      ApartAfter(t, t2, disk, disk', g, depth, added, 0);
    }
  }

  lemma PlainEntry(short: seq<byte>)
    requires |short| == 11
    ensures SubdirAt(Pack(short, 0x20, 0, 0)) == []
  {
    PackFields(short, 0x20, 0, 0);
    hide Pack, FirstCluster, FileSize;
  }

  /** The grown directory, in the table after interning. */
  lemma GrownDirectory(t: Table, t1: Table, t2: Table, dir: nat, id: nat, ino: Inode, ch: seq<nat>, added: nat)
    requires TableOk(t1) && TableOk(t2) && dir in t.inodes && t.inodes[dir].isDir
    requires Extended(t, t1, dir) && GrewBy(t, t1, dir, added) && Interned(t1, t2, id, ino, ch)
    ensures |t2.fat| == |t.fat| && t2.fat == t1.fat && ChainsGrow(t.fat, t2.fat, added)
    ensures added != 0 ==> IsDirCluster(t2, added)
    ensures forall x: nat | IsDirCluster(t, x) :: t2.fat[x] != FREE
  {
    KindKept(t, t1, dir);
    SameSize(t, t1, dir);
    hide TableOk, Extended, ChainsGrow, HasInode;
    forall x: nat | IsDirCluster(t, x)
      ensures t2.fat[x] != FREE
    {
      StillUsed(t, t1, dir, x);
    }
    if added != 0 {
      assert t1.chains[dir][|t.chains[dir]|] == added;
      DirChain(t2, dir, added);
    }
  }

  lemma SameSize(t: Table, t': Table, id: nat)
    requires Extended(t, t', id)
    ensures |t'.fat| == |t.fat|
  {
    hide FreeClusters, Elems;
  }

  lemma NewInternable(t: Table, c: nat)
    requires Adoptable(t, c, [c]) && ClusterChain(t.fat, c) == [c]
    ensures Internable(t, c, true)
  {
    hide Adoptable, ClusterChain;
  }

  lemma DirEntryLists(short: seq<byte>, c: nat)
    requires |short| == 11 && c < 0x1_0000_0000
    ensures forall d | d in SubdirAt(Pack(short, 0x10, c, 0)) :: d == c
  {
    PackFields(short, 0x10, c, 0);
    hide Pack, FileSize;
  }

  /** A new directory lists no subdirectory: its two entries are dots, and the rest is empty. */
  lemma DotsListNothing(disk: seq<byte>, g: Geometry, c: nat, parent: nat)
    requires GeoOk(g) && Fits(disk, g) && ClusterData(disk, g, c).Some?
    ensures var dots := Pack(Pad([0x2E], 11), 0x10, c, 0) + Pack(Pad([0x2E, 0x2E], 11), 0x10, parent, 0);
            var disk' := SetCluster(disk, g, c, dots + Zeros(ClusterLen(g) - |dots|));
            ListsLess(disk, disk', g, c) && forall d: nat :: !Lists(disk', g, c, d)
  {
    hide Pack, Pad, ClusterData, SetCluster, SubdirAt, Lists;
    var dot, dotdot := Pack(Pad([0x2E], 11), 0x10, c, 0), Pack(Pad([0x2E, 0x2E], 11), 0x10, parent, 0);
    DotNames(c, parent);
    var b := dot + dotdot + Zeros(ClusterLen(g) - |dot + dotdot|);
    var disk' := SetCluster(disk, g, c, b);
    SetClusterFrame(disk, g, c, b);
    forall i: nat | SLOT * i + SLOT <= |b|
      ensures SubdirAt(SlotOf(b, i)) == []
    {
      DotSlots(dot, dotdot, b, i);
    }
    forall d: nat
      ensures !Lists(disk', g, c, d)
    {
      NothingListed(disk', g, c, b, d);
    }
    forall x: nat, d: nat | Lists(disk', g, x, d)
      ensures Lists(disk, g, x, d)
    {
      if x != c {
        SameLists(disk, disk', g, {c}, x, d);
      }
    }
  }

  lemma NothingListed(disk: seq<byte>, g: Geometry, c: nat, b: seq<byte>, d: nat)
    requires ClusterData(disk, g, c).Some? && ClusterData(disk, g, c).value == b
    requires forall i: nat | SLOT * i + SLOT <= |b| :: SubdirAt(SlotOf(b, i)) == []
    ensures !Lists(disk, g, c, d)
  {
    hide ClusterData, SubdirAt;
  }

  lemma DotNames(c: nat, parent: nat)
    ensures Pack(Pad([0x2E], 11), 0x10, c, 0)[0] == 0x2E && Pack(Pad([0x2E, 0x2E], 11), 0x10, parent, 0)[0] == 0x2E
  {
  }

  lemma DotSlots(dot: seq<byte>, dotdot: seq<byte>, b: seq<byte>, i: nat)
    requires IsSlot(dot) && IsSlot(dotdot) && dot[0] == 0x2E && dotdot[0] == 0x2E && |b| >= 2 * SLOT && SLOT * i + SLOT <= |b|
    requires b == dot + dotdot + Zeros(|b| - 2 * SLOT)
    ensures SubdirAt(SlotOf(b, i)) == []
  {
    hide FirstCluster;
    if i == 0 {
      assert SlotOf(b, i)[0] == dot[0];
    } else if i == 1 {
      assert SlotOf(b, i)[0] == dotdot[0];
    } else {
      assert SlotOf(b, i)[0] == 0;
    }
  }

  lemma MkdirApart(t: Table, t2: Table, t3: Table, disk: seq<byte>, dotted: seq<byte>, disk': seq<byte>, g: Geometry, dir: nat, id: nat,
                   added: nat, c: nat, short: seq<byte>)
    requires TableOk(t) && TableOk(t2) && TableOk(t3) && dir in t.inodes && t.inodes[dir].isDir && |short| == 11
    requires IsCluster(t.fat, c) && t.fat[c] == FREE && Extended(t.(fat := t.fat[c := EOC]), t2, dir)
    requires GrewBy(t.(fat := t.fat[c := EOC]), t2, dir, added) && Interned(t2, t3, id, Inode(c, 0, true), [c]) && ClusterChain(t3.fat, c) == [c]
    requires !HasInode(t2.inodes, c, true) && c !in t2.chains[dir]
    requires ListsLess(disk, dotted, g, c) && forall d: nat :: !Lists(dotted, g, c, d)
    requires OnlyAdded(dotted, disk', g, t.chains[dir], t2.chains[dir], Pack(short, 0x10, c, 0))
    requires SameClusters(dotted, disk', g, Elems(t2.chains[dir]))
    ensures StaysApart(t, t3, disk, disk', g)
  {
    hide TableOk, Extended, OnlyAdded, SameClusters, Pack, ChainsGrow, ListsLess, Lists, ClusterChain, DirsApart, IsDirCluster, Interned, HasInode;
    hide FilesFrom, Elems;
    MkdirTable(t, t2, t3, dir, id, added, c);
    MkdirDisk(t, t2, disk, dotted, disk', g, dir, added, c, short);
    NoClusterZero(t3.fat, disk', g);
    forall depth: nat | DirsApart(t, disk, g, depth)
      ensures DirsApart(t3, disk', g, depth)
    {
      ApartAfter(t, t3, disk, disk', g, depth, added, c);
    }
  }

  lemma MkdirTable(t: Table, t2: Table, t3: Table, dir: nat, id: nat, added: nat, c: nat)
    requires TableOk(t) && TableOk(t2) && TableOk(t3) && dir in t.inodes && t.inodes[dir].isDir
    requires IsCluster(t.fat, c) && t.fat[c] == FREE && Extended(t.(fat := t.fat[c := EOC]), t2, dir)
    requires GrewBy(t.(fat := t.fat[c := EOC]), t2, dir, added) && Interned(t2, t3, id, Inode(c, 0, true), [c])
    requires !HasInode(t2.inodes, c, true)
    ensures FilesFrom(t, t3) && t3.fat == t2.fat && |t3.fat| == |t.fat| && ChainsGrow(t.fat, t3.fat, added)
    ensures (added != 0 ==> IsDirCluster(t3, added)) && IsDirCluster(t3, c)
    ensures forall x: nat | IsDirCluster(t, x) :: t3.fat[x] != FREE
  {
    hide TableOk, Extended, ChainsGrow, HasInode, FreeClusters;
    var t1 := t.(fat := t.fat[c := EOC]);
    TableKeys(t2);
    FilesAfter(t1, t2, t3, dir, id, Inode(c, 0, true), [c]);
    GrownDirectory(t1, t2, t3, dir, id, Inode(c, 0, true), [c], added);
    MarkGrows(t.fat, c, t3.fat, added);
    DirChain(t3, id, c);
    forall x: nat | IsDirCluster(t, x)
      ensures t3.fat[x] != FREE
    {
      UsedAfterMark(t, t1, c, x);
    }
    hide IsDirCluster;
    assert FilesFrom(t, t3);
  }

  lemma MkdirDisk(t: Table, t2: Table, disk: seq<byte>, dotted: seq<byte>, disk': seq<byte>, g: Geometry, dir: nat, added: nat, c: nat, short: seq<byte>)
    requires TableOk(t2) && |short| == 11 && dir in t.chains && dir in t2.chains && IsCluster(t2.fat, c) && c !in t2.chains[dir]
    requires if added == 0 then t2.chains[dir] == t.chains[dir] else t2.chains[dir] == t.chains[dir] + [added]
    requires ListsLess(disk, dotted, g, c) && forall d: nat :: !Lists(dotted, g, c, d)
    requires OnlyAdded(dotted, disk', g, t.chains[dir], t2.chains[dir], Pack(short, 0x10, c, 0))
    requires SameClusters(dotted, disk', g, Elems(t2.chains[dir]))
    ensures ListsLess(disk, disk', g, c) && forall d: nat :: !Lists(disk', g, c, d)
    ensures forall d: nat | d != c :: !Lists(disk', g, added, d)
  {
    hide TableOk, OnlyAdded, SameClusters, Pack, ListsLess, Lists, SubdirAt;
    TableSize(t2);
    DirEntryLists(short, c);
    AddedListsLess(dotted, disk', g, t.chains[dir], t2.chains[dir], Pack(short, 0x10, c, 0), c);
    ListsLessTrans(disk, dotted, disk', g, c);
    NoClusterZero(t2.fat, disk', g);
    forall d: nat
      ensures !Lists(disk', g, c, d)
    {
      SameLists(dotted, disk', g, Elems(t2.chains[dir]), c, d);
    }
    if added != 0 {
      assert t2.chains[dir][|t.chains[dir]|] == added;
    }
  }

  lemma NewInode(t: Table, t': Table, id: nat, ino: Inode, ch: seq<nat>)
    requires Interned(t, t', id, ino, ch) && !HasInode(t.inodes, ino.first, ino.isDir)
    ensures id !in t.inodes && id in t'.inodes && t'.inodes[id] == ino && id in t'.chains && t'.chains[id] == ch
    ensures forall j | j in t.inodes :: j in t'.inodes && t'.inodes[j] == t.inodes[j]
    ensures forall j | j in t.chains :: j in t'.chains && t'.chains[j] == t.chains[j]
    ensures t'.fat == t.fat
  {
    hide HasInode;
  }

  lemma UsedAfterMark(t: Table, t1: Table, c: nat, x: nat)
    requires c < |t.fat| && t1 == t.(fat := t.fat[c := EOC]) && IsDirCluster(t, x)
    ensures IsDirCluster(t1, x)
  {
  }

  /** Unlinking a file lists no new subdirectory and frees no directory. */
  lemma UnlinkApart(t: Table, t': Table, disk: seq<byte>, disk': seq<byte>, g: Geometry, id: nat, e: seq<byte>, chain: seq<nat>, short: seq<byte>)
    requires TableOk(t) && IsSlot(e) && OwnsEntry(t, id, e) && !IsDir(e) && t' == UnlinkTable(t, id)
    requires EntryRemoved(disk, disk', g, chain, short)
    ensures StaysApart(t, t', disk, disk', g)
  {
    hide TableOk, ChainsGrow, ListsLess, Lists, ClusterChain, DirsApart, IsDirCluster, OwnsEntry, Clear, EntryRemoved, FreeClusters;
    hide IsDir, FirstCluster, FilesFrom, UnlinkTable, Elems;
    UnlinkTableOk(t, id, e);
    UnlinkFacts(t, id, e);
    ClearGrows(t.fat, t.chains[id]);
    RemovedListsLess(disk, disk', g, chain, short);
    NoClusterZero(t'.fat, disk', g);
    forall depth: nat | DirsApart(t, disk, g, depth)
      ensures DirsApart(t', disk', g, depth)
    {
      ApartAfter(t, t', disk, disk', g, depth, 0, 0);
    }
  }

  lemma UnlinkFacts(t: Table, id: nat, e: seq<byte>)
    requires IsSlot(e) && OwnsEntry(t, id, e) && !IsDir(e) && forall i | 0 <= i < |t.chains[id]| :: t.chains[id][i] < |t.fat|
    ensures id in t.chains && UnlinkTable(t, id).fat == Clear(t.fat, t.chains[id]) && |UnlinkTable(t, id).fat| == |t.fat|
    ensures FilesFrom(t, UnlinkTable(t, id)) && forall x: nat | IsDirCluster(t, x) :: UnlinkTable(t, id).fat[x] != FREE
  {
    hide FirstCluster;
  }

  lemma RemovedListsLess(disk: seq<byte>, disk': seq<byte>, g: Geometry, chain: seq<nat>, short: seq<byte>)
    requires EntryRemoved(disk, disk', g, chain, short)
    ensures ListsLess(disk, disk', g, 0)
  {
    hide ClusterData, SubdirAt;
    var c, i: nat :| c in chain && ClusterData(disk, g, c).Some? && SLOT * i + SLOT <= ClusterLen(g) && SlotFreed(disk, disk', g, c, i, short);
    forall x: nat, d: nat | Lists(disk', g, x, d)
      ensures Lists(disk, g, x, d)
    {
      if x == c {
        FreedListsLess(ClusterData(disk, g, c).value, i, d);
      } else {
        SameLists(disk, disk', g, {c}, x, d);
      }
    }
  }

  lemma FreedListsLess(b: seq<byte>, i: nat, d: nat)
    requires SLOT * i + SLOT <= |b| && ListedIn(Put(b, SLOT * i, [0xE5]), d)
    ensures ListedIn(b, d)
  {
    hide SubdirAt;
    var b' := Put(b, SLOT * i, [0xE5]);
    var j: nat :| SLOT * j + SLOT <= |b'| && SubdirAt(SlotOf(b', j)) == [d];
    FreedSlots(b, i, j);
  }

  lemma FreedSlots(b: seq<byte>, i: nat, j: nat)
    requires SLOT * i + SLOT <= |b| && SLOT * j + SLOT <= |b|
    ensures var b' := Put(b, SLOT * i, [0xE5]);
            if j == i then SubdirAt(SlotOf(b', j)) == [] else SlotOf(b', j) == SlotOf(b, j)
  {
    hide FirstCluster;
    var b' := Put(b, SLOT * i, [0xE5]);
    if j == i {
      assert SlotOf(b', i)[0] == 0xE5;
    }
  }

  /** The two entries every directory starts with. */
  ghost predicate DotEntries(disk: seq<byte>, g: Geometry, c: nat, parent: nat) {
    && ClusterData(disk, g, c).Some? && 2 * SLOT <= ClusterLen(g)
    && SlotOf(ClusterData(disk, g, c).value, 0) == Pack(Pad([0x2E], 11), 0x10, c, 0)
    && SlotOf(ClusterData(disk, g, c).value, 1) == Pack(Pad([0x2E, 0x2E], 11), 0x10, parent, 0)
  }

  lemma DotsWritten(disk: seq<byte>, g: Geometry, c: nat, parent: nat)
    requires GeoOk(g) && Fits(disk, g) && ClusterData(disk, g, c).Some?
    ensures var dots := Pack(Pad([0x2E], 11), 0x10, c, 0) + Pack(Pad([0x2E, 0x2E], 11), 0x10, parent, 0);
            DotEntries(SetCluster(disk, g, c, dots + Zeros(ClusterLen(g) - |dots|)), g, c, parent)
  {
    var dot, dotdot := Pack(Pad([0x2E], 11), 0x10, c, 0), Pack(Pad([0x2E, 0x2E], 11), 0x10, parent, 0);
    hide Pack, Pad;
    var b := dot + dotdot + Zeros(ClusterLen(g) - |dot + dotdot|);
    SetClusterFrame(disk, g, c, b);
    hide ClusterData, SetCluster;
    assert SlotOf(b, 0) == dot && SlotOf(b, 1) == dotdot;
  }

  lemma DotsKept(disk: seq<byte>, disk': seq<byte>, g: Geometry, c: nat, parent: nat, chain: seq<nat>)
    requires DotEntries(disk, g, c, parent) && SameClusters(disk, disk', g, Elems(chain)) && c !in chain
    ensures DotEntries(disk', g, c, parent)
  {
    hide ClusterData, Pack, Pad;
    assert ClusterData(disk', g, c) == ClusterData(disk, g, c);
  }

  lemma AdoptableApart(t: Table, id: nat, c: nat)
    requires TableOk(t) && id in t.chains && Adoptable(t, c, [c])
    ensures c !in t.chains[id]
  {
    hide Linked;
    assert [c][0] !in t.slots;
    forall i: nat | i < |t.chains[id]|
      ensures t.chains[id][i] != c
    {
      assert t.slots[t.chains[id][i]] == Slot(id, i);
    }
  }
}
