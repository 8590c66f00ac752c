/** The order in which the size update searches the directory tree, and what it finds. */
module FatSearch {
  import opened Bytes
  import opened FatDir
  import opened FatLayout
  import opened FatScan
  import opened FatState
  import opened FatTable
  import opened FatTree

  /** The clusters of a directory and of those below it, at most `depth` levels down, in the order they are searched. */
  function TreeChain(fat: Fat, disk: seq<byte>, g: Geometry, dir: nat, depth: nat): seq<nat>
    decreases depth, 0
  {
    var chain := ClusterChain(fat, dir);
    if depth == 0 then chain else chain + TreeChains(fat, disk, g, Subdirs(disk, g, chain), depth - 1)
  }

  function TreeChains(fat: Fat, disk: seq<byte>, g: Geometry, dirs: seq<nat>, depth: nat): seq<nat>
    decreases depth, |dirs| + 1
  {
    if dirs == [] then [] else TreeChain(fat, disk, g, dirs[0], depth) + TreeChains(fat, disk, g, dirs[1..], depth)
  }

  /** There are directories more than `depth` levels down. */
  ghost predicate Deeper(fat: Fat, disk: seq<byte>, g: Geometry, dir: nat, depth: nat)
    decreases depth
  {
    var subs := Subdirs(disk, g, ClusterChain(fat, dir));
    if depth == 0 then subs != [] else exists d | d in subs :: Deeper(fat, disk, g, d, depth - 1)
  }

  /** The searched clusters are those of the tree. */
  lemma {:induction false} TreeChainIs(fat: Fat, disk: seq<byte>, g: Geometry, dir: nat, depth: nat, c: nat)
    ensures c in TreeChain(fat, disk, g, dir, depth) <==> InTree(fat, disk, g, dir, depth, c)
    decreases depth, 0
  {
    hide ClusterChain, Subdirs;
    if depth > 0 {
      TreeChainsAre(fat, disk, g, Subdirs(disk, g, ClusterChain(fat, dir)), depth - 1, c);
    }
  }

  lemma {:induction false} TreeChainsAre(fat: Fat, disk: seq<byte>, g: Geometry, dirs: seq<nat>, depth: nat, c: nat)
    ensures c in TreeChains(fat, disk, g, dirs, depth) <==> exists d | d in dirs :: InTree(fat, disk, g, d, depth, c)
    decreases depth, |dirs| + 1
  {
    hide InTree, TreeChain;
    if dirs != [] {
      TreeChainIs(fat, disk, g, dirs[0], depth, c);
      TreeChainsAre(fat, disk, g, dirs[1..], depth, c);
      assert forall d :: d in dirs <==> d == dirs[0] || d in dirs[1..];
    }
  }

  /** Searching one list after another. */
  lemma {:induction false} ScanAppend(disk: seq<byte>, g: Geometry, a: seq<nat>, b: seq<nat>, q: Query)
    ensures Scan(disk, g, a + b, q) == if Scan(disk, g, a, q).Missing? then Scan(disk, g, b, q) else Scan(disk, g, a, q)
  {
    hide ClusterData, FirstHit, Hit;
    if a == [] {
      assert a + b == b;
    } else {
      ScanAppend(disk, g, a[1..], b, q);
      assert (a + b)[1..] == a[1..] + b;
    }
  }

  /** The search of a directory finds something itself, or leaves the rest to its subdirectories. */
  lemma SearchStep(fat: Fat, disk: seq<byte>, g: Geometry, dir: nat, depth: nat, q: Query)
    ensures var chain := ClusterChain(fat, dir);
            Scan(disk, g, TreeChain(fat, disk, g, dir, depth), q)
            == if !Scan(disk, g, chain, q).Missing? || depth == 0 then Scan(disk, g, chain, q)
            else Scan(disk, g, TreeChains(fat, disk, g, Subdirs(disk, g, chain), depth - 1), q)
  {
    hide Scan, ClusterChain, Subdirs;
    var chain := ClusterChain(fat, dir);
    if depth > 0 {
      ScanAppend(disk, g, chain, TreeChains(fat, disk, g, Subdirs(disk, g, chain), depth - 1), q);
    }
  }

  lemma NextDirectory(fat: Fat, disk: seq<byte>, g: Geometry, dirs: seq<nat>, depth: nat, q: Query)
    requires dirs != []
    ensures Scan(disk, g, TreeChains(fat, disk, g, dirs, depth), q)
         == if Scan(disk, g, TreeChain(fat, disk, g, dirs[0], depth), q).Missing?
            then Scan(disk, g, TreeChains(fat, disk, g, dirs[1..], depth), q)
            else Scan(disk, g, TreeChain(fat, disk, g, dirs[0], depth), q)
  {
    hide Scan, TreeChain;
    ScanAppend(disk, g, TreeChain(fat, disk, g, dirs[0], depth), TreeChains(fat, disk, g, dirs[1..], depth), q);
  }

  lemma NoDirectories(fat: Fat, disk: seq<byte>, g: Geometry, depth: nat, q: Query)
    ensures Scan(disk, g, TreeChains(fat, disk, g, [], depth), q).Missing?
  {
  }

  /** Unless `x` is in the data, the cluster and its table entry are as they were. */
  ghost predicate Spared(fat: Fat, fat': Fat, data: set<nat>, x: nat) {
    x !in data && (x < |fat| && x < |fat'| ==> fat'[x] == fat[x])
  }

  ghost predicate TreeSpared(fat: Fat, fat': Fat, disk: seq<byte>, g: Geometry, dir: nat, depth: nat, data: set<nat>) {
    forall x: nat | InTree(fat, disk, g, dir, depth, x) :: Spared(fat, fat', data, x)
  }

  lemma SparedChain(fat: Fat, fat': Fat, disk: seq<byte>, g: Geometry, dir: nat, depth: nat, data: set<nat>)
    requires |fat'| == |fat| && TreeSpared(fat, fat', disk, g, dir, depth, data)
    ensures ClusterChain(fat', dir) == ClusterChain(fat, dir)
    ensures forall i | 0 <= i < |ClusterChain(fat, dir)| :: ClusterChain(fat, dir)[i] !in data
    ensures depth > 0 ==>
              forall d | d in Subdirs(disk, g, ClusterChain(fat, dir)) :: TreeSpared(fat, fat', disk, g, d, depth - 1, data)
  {
    hide Subdirs;
    var chain := ClusterChain(fat, dir);
    forall x: nat | x in chain
      ensures x < |fat| && fat'[x] == fat[x] && x !in data
    {
      assert InTree(fat, disk, g, dir, depth, x);
      assert Spared(fat, fat', data, x);
    }
    hide ClusterChain;
    ChainKept(fat, fat', dir);
    forall d, x: nat | depth > 0 && d in Subdirs(disk, g, chain) && InTree(fat, disk, g, d, depth - 1, x)
      ensures Spared(fat, fat', data, x)
    {
      assert InTree(fat, disk, g, dir, depth, x);
    }
  }

  /** Changes outside the tree, and size updates in it, leave the order of the search alone. */
  lemma {:induction false} TreeChainKept(fat: Fat, fat': Fat, disk: seq<byte>, disk': seq<byte>, g: Geometry, dir: nat, depth: nat,
                                         data: set<nat>, target: nat)
    requires |fat'| == |fat| && Patched(disk, disk', g, data, target) && TreeSpared(fat, fat', disk, g, dir, depth, data)
    ensures TreeChain(fat', disk', g, dir, depth) == TreeChain(fat, disk, g, dir, depth)
    ensures Deeper(fat', disk', g, dir, depth) <==> Deeper(fat, disk, g, dir, depth)
    decreases depth, 0
  {
    hide Patched, Subdirs, ClusterChain, TreeSpared;
    SparedChain(fat, fat', disk, g, dir, depth, data);
    var chain := ClusterChain(fat, dir);
    SubdirsKept(disk, disk', g, chain, data, target);
    if depth > 0 {
      TreeChainsKept(fat, fat', disk, disk', g, Subdirs(disk, g, chain), depth - 1, data, target);
    }
  }

  lemma {:induction false} TreeChainsKept(fat: Fat, fat': Fat, disk: seq<byte>, disk': seq<byte>, g: Geometry, dirs: seq<nat>, depth: nat,
                                          data: set<nat>, target: nat)
    requires |fat'| == |fat| && Patched(disk, disk', g, data, target)
    requires forall d | d in dirs :: TreeSpared(fat, fat', disk, g, d, depth, data)
    ensures TreeChains(fat', disk', g, dirs, depth) == TreeChains(fat, disk, g, dirs, depth)
    ensures forall d | d in dirs :: Deeper(fat', disk', g, d, depth) <==> Deeper(fat, disk, g, d, depth)
    decreases depth, |dirs| + 1
  {
    hide Patched, TreeSpared, Deeper, TreeChain;
    if dirs != [] {
      TreeChainKept(fat, fat', disk, disk', g, dirs[0], depth, data, target);
      TreeChainsKept(fat, fat', disk, disk', g, dirs[1..], depth, data, target);
      assert forall d :: d in dirs <==> d == dirs[0] || d in dirs[1..];
    }
  }

  lemma {:induction false} FirstStartingKept(b: seq<byte>, b': seq<byte>, first: nat, target: nat, i: nat)
    requires BlockPatched(b, b', target)
    ensures FirstHit(b', Starting(first), i) == FirstHit(b, Starting(first), i)
    decreases |b| - SLOT * i
  {
    hide SlotPatched, FirstCluster, IsFree, IsLfn, IsEntry, IsDir;
    if SLOT * i + SLOT <= |b| {
      HeadKept(SlotOf(b, i), SlotOf(b', i), target);
      FirstStartingKept(b, b', first, target, i + 1);
    }
  }

  /** Size updates do not move entries: a search by first cluster has the same outcome. */
  lemma {:induction false} StartingKept(disk: seq<byte>, disk': seq<byte>, g: Geometry, chain: seq<nat>, first: nat, data: set<nat>, target: nat)
    requires Patched(disk, disk', g, data, target) && forall i | 0 <= i < |chain| :: chain[i] !in data
    ensures Scan(disk', g, chain, Starting(first)) == Scan(disk, g, chain, Starting(first))
  {
    SomeKept(disk, disk', g);
    hide ClusterData, BlockPatched, Hit, FirstHit;
    if chain != [] && ClusterData(disk, g, chain[0]).Some? {
      assert chain[0] !in data;
      FirstStartingKept(ClusterData(disk, g, chain[0]).value, ClusterData(disk', g, chain[0]).value, first, target, 0);
      StartingKept(disk, disk', g, chain[1..], first, data, target);
    }
  }

  /** Where the size update would look for the entry of the file at `first`. */
  function SizeEntry(fat: Fat, disk: seq<byte>, g: Geometry, dir: nat, depth: nat, first: nat): (r: Found)
    ensures r.At? ==> ClusterData(disk, g, r.c).Some? && SLOT * r.i + SLOT <= ClusterLen(g)
  {
    Scan(disk, g, TreeChain(fat, disk, g, dir, depth), Starting(first))
  }

  /** It finds the same entry after changes outside the tree. */
  lemma SizeEntryKept(fat: Fat, fat': Fat, disk: seq<byte>, disk': seq<byte>, g: Geometry, dir: nat, depth: nat, data: set<nat>,
                      target: nat, first: nat)
    requires |fat'| == |fat| && Patched(disk, disk', g, data, target) && TreeSpared(fat, fat', disk, g, dir, depth, data)
    ensures SizeEntry(fat', disk', g, dir, depth, first) == SizeEntry(fat, disk, g, dir, depth, first)
  {
    hide Patched, Scan, InTree, Spared;
    TreeChainKept(fat, fat', disk, disk', g, dir, depth, data, target);
    var chain := TreeChain(fat, disk, g, dir, depth);
    forall i | 0 <= i < |chain|
      ensures chain[i] !in data
    {
      TreeChainIs(fat, disk, g, dir, depth, chain[i]);
      SparedOne(fat, fat', data, chain[i]);
    }
    StartingKept(disk, disk', g, chain, first, data, target);
  }

  lemma SparedOne(fat: Fat, fat': Fat, data: set<nat>, x: nat)
    requires Spared(fat, fat', data, x)
    ensures x !in data
  {
  }

  /** The tree was readable, and the first entry in it that starts at `first`, if there is one, has this size. */
  ghost predicate SizeListed(fat: Fat, disk: seq<byte>, g: Geometry, depth: nat, first: nat, size: nat) {
    var hit := SizeEntry(fat, disk, g, g.root, depth, first);
    !hit.Unreadable? && (hit.At? ==> FileSize(SlotOf(ClusterData(disk, g, hit.c).value, hit.i)) == size)
  }

  /** The search for the entry gives up: at an unreadable cluster, or at a directory too far down. */
  ghost predicate Unsearchable(fat: Fat, disk: seq<byte>, g: Geometry, depth: nat, first: nat) {
    SizeEntry(fat, disk, g, g.root, depth, first).Unreadable? || Deeper(fat, disk, g, g.root, depth)
  }

  /** Changing a file's chain and data leaves the search as it was, as long as the directories are apart from the files. */
  lemma SearchKept(t: Table, t': Table, disk: seq<byte>, disk': seq<byte>, g: Geometry, id: nat, depth: nat, data: set<nat>,
                   target: nat, first: nat)
    requires Changes(t, t', id) && id in t.inodes && !t.inodes[id].isDir && DirsApart(t, disk, g, depth)
    requires Patched(disk, disk', g, data, target) && data <= Elems(t'.chains[id])
    ensures SizeEntry(t'.fat, disk', g, g.root, depth, first) == SizeEntry(t.fat, disk, g, g.root, depth, first)
    ensures Unsearchable(t'.fat, disk', g, depth, first) <==> Unsearchable(t.fat, disk, g, depth, first)
  {
    hide InTree, IsDirCluster, Changes, Patched, SizeEntry, Deeper;
    SameLength(t, t', id);
    forall c: nat | InTree(t.fat, disk, g, g.root, depth, c)
      ensures Spared(t.fat, t'.fat, data, c)
    {
      DirClusterKept(t, t', id, c);
    }
    SizeEntryKept(t.fat, t'.fat, disk, disk', g, g.root, depth, data, target, first);
    TreeChainKept(t.fat, t'.fat, disk, disk', g, g.root, depth, data, target);
  }

  /** A search that gives up after a write would have given up before it. */
  lemma GaveUp(t: Table, t': Table, disk: seq<byte>, disk1: seq<byte>, disk': seq<byte>, g: Geometry, id: nat, depth: nat)
    requires Extended(t, t', id) && !t.inodes[id].isDir && id in t'.inodes && id in t'.chains
    requires SameClusters(disk, disk1, g, Elems(t'.chains[id])) && Patched(disk1, disk', g, {}, t'.inodes[id].first)
    requires Unsearchable(t'.fat, disk', g, depth, t'.inodes[id].first) && DirsApart(t, disk, g, depth)
    ensures Unsearchable(t.fat, disk, g, depth, t'.inodes[id].first)
  {
    ExtendedChanges(t, t', id);
    hide Extended, Changes, SameClusters, Patched, InTree, DirsApart, Elems, Unsearchable;
    var data, target := Elems(t'.chains[id]), t'.inodes[id].first;
    PatchedThen(disk, disk1, disk', g, data, target);
    SearchKept(t, t', disk, disk', g, id, depth, data, target, target);
  }

  /** The disk after the size update: nothing to patch, or new size bytes in the first entry found. */
  ghost predicate SizePatched(fat: Fat, disk: seq<byte>, disk': seq<byte>, g: Geometry, dir: nat, depth: nat, first: nat, size: nat) {
    var hit := SizeEntry(fat, disk, g, dir, depth, first);
    && !hit.Unreadable?
    && disk' == if hit.At? then SetCluster(disk, g, hit.c, PatchSize(ClusterData(disk, g, hit.c).value, hit.i, size)) else disk
  }

  /** After the size update the entry is found again, with the new size. */
  lemma PatchedListed(fat: Fat, disk: seq<byte>, disk': seq<byte>, g: Geometry, depth: nat, first: nat, size: nat)
    requires Fits(disk, g) && Patched(disk, disk', g, {}, first) && SizePatched(fat, disk, disk', g, g.root, depth, first, size)
    ensures SizeListed(fat, disk', g, depth, first, size % 0x1_0000_0000)
  {
    hide Patched, Scan, TreeChain, SetCluster, FileSize, ClusterData;
    SizeEntryKept(fat, fat, disk, disk', g, g.root, depth, {}, first, first);
    var hit := SizeEntry(fat, disk, g, g.root, depth, first);
    if hit.At? {
      var b := PatchSize(ClusterData(disk, g, hit.c).value, hit.i, size);
      SetClusterFrame(disk, g, hit.c, b);
      SizeField(ClusterData(disk, g, hit.c).value, hit.i, size);
    }
  }

  lemma SizeField(b: seq<byte>, i: nat, size: nat)
    requires SLOT * i + SLOT <= |b|
    ensures FileSize(SlotOf(PatchSize(b, i, size), i)) == size % 0x1_0000_0000
  {
    var e := SlotOf(PatchSize(b, i, size), i);
    hide LeEncode, LeDecode;
    assert e[28..32] == LeEncode(size, 4);
    EncodeWraps(size);
  }
}
