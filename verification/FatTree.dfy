/** The directory tree on disk, and what a size update leaves of it. */
module FatTree {
  import opened Bytes
  import opened Disk
  import opened FatDir
  import opened FatLayout
  import opened FatScan
  import opened FatTable

  /** Cluster `c` holds entries of a directory at most `depth` levels below `dir`. */
  ghost predicate InTree(fat: Fat, disk: seq<byte>, g: Geometry, dir: nat, depth: nat, c: nat)
    decreases depth
  {
    || c in ClusterChain(fat, dir)
    || (depth > 0 && exists d | d in Subdirs(disk, g, ClusterChain(fat, dir)) :: InTree(fat, disk, g, d, depth - 1, c))
  }

  /** What a size update for the file at `target` may do to one slot: new size bytes in an entry that starts there. */
  predicate SlotPatched(e: seq<byte>, e': seq<byte>, target: nat) {
    IsSlot(e) && IsSlot(e') && (e' == e || (IsEntry(e) && FirstCluster(e) == target && e'[..28] == e[..28]))
  }

  ghost predicate BlockPatched(b: seq<byte>, b': seq<byte>, target: nat) {
    |b'| == |b| && forall i: nat | SLOT * i + SLOT <= |b| :: SlotPatched(SlotOf(b, i), SlotOf(b', i), target)
  }

  /** Outside the clusters in `data`, slots are as they were up to size updates for `target`. */
  ghost predicate Patched(disk: seq<byte>, disk': seq<byte>, g: Geometry, data: set<nat>, target: nat) {
    && |disk'| == |disk|
    && forall c: nat | c !in data && ClusterData(disk, g, c).Some? ::
         ClusterData(disk', g, c).Some? && BlockPatched(ClusterData(disk, g, c).value, ClusterData(disk', g, c).value, target)
  }

  lemma PatchedSame(disk: seq<byte>, disk': seq<byte>, g: Geometry, data: set<nat>, target: nat)
    requires SameClusters(disk, disk', g, data)
    ensures Patched(disk, disk', g, data, target)
  {
    hide ClusterData, FirstCluster;
  }

  lemma PatchedThen(a: seq<byte>, b: seq<byte>, c: seq<byte>, g: Geometry, data: set<nat>, target: nat)
    requires SameClusters(a, b, g, data) && Patched(b, c, g, {}, target)
    ensures Patched(a, c, g, data, target)
  {
    hide ClusterData, BlockPatched;
  }

  lemma PatchedRefl(disk: seq<byte>, g: Geometry, target: nat)
    ensures Patched(disk, disk, g, {}, target)
  {
    PatchedSame(disk, disk, g, {}, target);
  }

  lemma PatchedMore(disk: seq<byte>, disk': seq<byte>, g: Geometry, data: set<nat>, target: nat)
    requires Patched(disk, disk', g, {}, target)
    ensures Patched(disk, disk', g, data, target)
  {
    hide ClusterData, BlockPatched;
  }

  /** Writing new size bytes into one slot. */
  lemma PatchOne(b: seq<byte>, b': seq<byte>, i: nat, target: nat, x: seq<byte>)
    requires SLOT * i + SLOT <= |b| && |x| == 4 && Hit(Starting(target), SlotOf(b, i)) && b' == Put(b, SLOT * i + 28, x)
    ensures BlockPatched(b, b', target)
  {
    forall j: nat | SLOT * j + SLOT <= |b|
      ensures SlotPatched(SlotOf(b, j), SlotOf(b', j), target)
    {
      if j == i {
        assert SlotOf(b', i)[..28] == SlotOf(b, i)[..28];
      } else {
        assert SlotOf(b', j) == SlotOf(b, j);
      }
    }
  }

  lemma PatchCluster(disk: seq<byte>, g: Geometry, c: nat, b': seq<byte>, target: nat)
    requires Fits(disk, g) && ClusterData(disk, g, c).Some? && |b'| == ClusterLen(g)
    requires BlockPatched(ClusterData(disk, g, c).value, b', target)
    ensures Patched(disk, SetCluster(disk, g, c, b'), g, {}, target)
  {
    SetClusterFrame(disk, g, c, b');
    hide ClusterData, SetCluster, SlotPatched;
    var disk' := SetCluster(disk, g, c, b');
    forall d: nat | ClusterData(disk, g, d).Some?
      ensures ClusterData(disk', g, d).Some?
      ensures BlockPatched(ClusterData(disk, g, d).value, ClusterData(disk', g, d).value, target)
    {
      if d != c {
        assert ClusterData(disk', g, d) == ClusterData(disk, g, d);
        BlockRefl(ClusterData(disk, g, d).value, target);
      }
    }
  }

  lemma BlockRefl(b: seq<byte>, target: nat)
    ensures BlockPatched(b, b, target)
  {
  }

  /** A size update leaves name, kind and first cluster of every entry alone. */
  lemma HeadKept(e: seq<byte>, e': seq<byte>, target: nat)
    requires SlotPatched(e, e', target)
    ensures IsEntry(e') == IsEntry(e) && IsDir(e') == IsDir(e) && FirstCluster(e') == FirstCluster(e) && Name(e') == Name(e)
    ensures IsFree(e') == IsFree(e) && IsLfn(e') == IsLfn(e) && e'[0] == e[0] && e'[11] == e[11]
    ensures FirstCluster(e) != target ==> e' == e
  {
    if e' != e {
      var h, h' := e[..28], e'[..28];
      assert e'[20..22] == h'[20..22] && e[20..22] == h[20..22];
      assert e'[26..28] == h'[26..28] && e[26..28] == h[26..28];
      assert e'[..11] == h'[..11] && e[..11] == h[..11];
      assert e'[0] == h'[0] && e[0] == h[0] && e'[11] == h'[11] && e[11] == h[11];
    }
  }

  lemma SubdirAtKept(e: seq<byte>, e': seq<byte>, target: nat)
    requires SlotPatched(e, e', target)
    ensures SubdirAt(e') == SubdirAt(e)
  {
    HeadKept(e, e', target);
    hide SlotPatched, FirstCluster, IsEntry, IsDir;
  }

  lemma {:induction false} SubdirsInKept(b: seq<byte>, b': seq<byte>, target: nat, i: nat)
    requires BlockPatched(b, b', target)
    ensures SubdirsIn(b', i) == SubdirsIn(b, i)
    decreases |b| - SLOT * i
  {
    hide SlotPatched, SubdirAt;
    if SLOT * i + SLOT <= |b| {
      SubdirAtKept(SlotOf(b, i), SlotOf(b', i), target);
      SubdirsInKept(b, b', target, i + 1);
    }
  }

  /** So the subdirectories of a directory outside the data are the same. */
  lemma {:induction false} SubdirsKept(disk: seq<byte>, disk': seq<byte>, g: Geometry, chain: seq<nat>, data: set<nat>, target: nat)
    requires Patched(disk, disk', g, data, target) && forall i | 0 <= i < |chain| :: chain[i] !in data
    ensures Subdirs(disk', g, chain) == Subdirs(disk, g, chain)
  {
    SomeKept(disk, disk', g);
    hide ClusterData, BlockPatched, SubdirsIn;
    if chain != [] && ClusterData(disk, g, chain[0]).Some? {
      assert chain[0] !in data;
      SubdirsInKept(ClusterData(disk, g, chain[0]).value, ClusterData(disk', g, chain[0]).value, target, 0);
      SubdirsKept(disk, disk', g, chain[1..], data, target);
    }
  }

  lemma SomeKept(disk: seq<byte>, disk': seq<byte>, g: Geometry)
    requires |disk'| == |disk|
    ensures forall c: nat :: ClusterData(disk', g, c).Some? == ClusterData(disk, g, c).Some?
  {
  }

  lemma {:induction false} WalkKept(fat: Fat, fat': Fat, c: nat, guard: nat)
    requires |fat'| == |fat| && forall i | 0 <= i < |Walk(fat, c, guard)| :: fat'[Walk(fat, c, guard)[i]] == fat[Walk(fat, c, guard)[i]]
    ensures Walk(fat', c, guard) == Walk(fat, c, guard)
    decreases guard
  {
    if guard > 0 && IsCluster(fat, c) {
      var w := Walk(fat, c, guard);
      assert w[0] == c;
      if !EndMark(fat[c]) {
        assert w[1..] == Walk(fat, fat[c], guard - 1);
        WalkKept(fat, fat', fat[c], guard - 1);
      }
    }
  }

  lemma ChainKept(fat: Fat, fat': Fat, first: nat)
    requires |fat'| == |fat| && forall c: nat | c in ClusterChain(fat, first) :: c < |fat| && fat'[c] == fat[c]
    ensures ClusterChain(fat', first) == ClusterChain(fat, first)
  {
    var w := ClusterChain(fat, first);
    assert forall i | 0 <= i < |w| :: w[i] in w;
    WalkKept(fat, fat', first, GUARD);
  }

  /** Table entries and slots of the tree outside the data are kept, so the tree is. */
  lemma {:induction false} TreeKept(fat: Fat, fat': Fat, disk: seq<byte>, disk': seq<byte>, g: Geometry, dir: nat, depth: nat,
                                    data: set<nat>, target: nat, c: nat)
    requires |fat'| == |fat| && Patched(disk, disk', g, data, target)
    requires forall x: nat | InTree(fat, disk, g, dir, depth, x) :: x !in data && (x < |fat| ==> fat'[x] == fat[x])
    ensures InTree(fat', disk', g, dir, depth, c) <==> InTree(fat, disk, g, dir, depth, c)
    decreases depth
  {
    hide Patched, Subdirs;
    var chain := ClusterChain(fat, dir);
    forall x: nat | x in chain
      ensures x < |fat| && fat'[x] == fat[x] && x !in data
    {
      assert InTree(fat, disk, g, dir, depth, x);
    }
    hide ClusterChain;
    ChainKept(fat, fat', dir);
    SubdirsKept(disk, disk', g, chain, data, target);
    if depth > 0 {
      forall d | d in Subdirs(disk, g, chain)
        ensures InTree(fat', disk', g, d, depth - 1, c) <==> InTree(fat, disk, g, d, depth - 1, c)
      {
        forall x: nat | InTree(fat, disk, g, d, depth - 1, x)
          ensures x !in data && (x < |fat| ==> fat'[x] == fat[x])
        {
          assert InTree(fat, disk, g, dir, depth, x);
        }
        TreeKept(fat, fat', disk, disk', g, d, depth - 1, data, target, c);
      }
    }
  }

  lemma {:induction false} FirstNamedKept(b: seq<byte>, b': seq<byte>, short: seq<byte>, target: nat, i: nat)
    requires BlockPatched(b, b', target)
    ensures FirstHit(b', Named(short), i) == FirstHit(b, Named(short), i)
    decreases |b| - SLOT * i
  {
    hide SlotPatched, FirstCluster, IsFree, IsLfn, IsEntry, IsDir;
    if SLOT * i + SLOT <= |b| {
      HeadKept(SlotOf(b, i), SlotOf(b', i), target);
      FirstNamedKept(b, b', short, target, i + 1);
    }
  }

  /** Size updates do not move names: a search by name has the same outcome. */
  lemma {:induction false} NamedKept(disk: seq<byte>, disk': seq<byte>, g: Geometry, chain: seq<nat>, short: seq<byte>, data: set<nat>, target: nat)
    requires Patched(disk, disk', g, data, target) && forall i | 0 <= i < |chain| :: chain[i] !in data
    ensures Scan(disk', g, chain, Named(short)) == Scan(disk, g, chain, Named(short))
  {
    SomeKept(disk, disk', g);
    hide ClusterData, BlockPatched, Hit, FirstHit;
    if chain != [] && ClusterData(disk, g, chain[0]).Some? {
      assert chain[0] !in data;
      FirstNamedKept(ClusterData(disk, g, chain[0]).value, ClusterData(disk', g, chain[0]).value, short, target, 0);
      NamedKept(disk, disk', g, chain[1..], short, data, target);
    }
  }

  /** The slot a search found, afterwards: same name, kind and first cluster. */
  lemma SlotKept(disk: seq<byte>, disk': seq<byte>, g: Geometry, c: nat, i: nat, data: set<nat>, target: nat)
    requires Patched(disk, disk', g, data, target) && c !in data && ClusterData(disk, g, c).Some? && SLOT * i + SLOT <= ClusterLen(g)
    ensures ClusterData(disk', g, c).Some?
    ensures SlotPatched(SlotOf(ClusterData(disk, g, c).value, i), SlotOf(ClusterData(disk', g, c).value, i), target)
  {
    hide ClusterData, SlotPatched;
  }

  /** Cluster `x` lists the subdirectory `d`. */
  ghost predicate Lists(disk: seq<byte>, g: Geometry, x: nat, d: nat) {
    ClusterData(disk, g, x).Some? && ListedIn(ClusterData(disk, g, x).value, d)
  }

  ghost predicate ListedIn(b: seq<byte>, d: nat) {
    exists i: nat | SLOT * i + SLOT <= |b| :: SubdirAt(SlotOf(b, i)) == [d]
  }

  lemma {:induction false} SubdirsInListed(b: seq<byte>, i: nat, d: nat)
    ensures d in SubdirsIn(b, i) ==> ListedIn(b, d)
    decreases |b| - SLOT * i
  {
    hide SubdirAt;
    if SLOT * i + SLOT <= |b| {
      SubdirsInListed(b, i + 1, d);
      OneSubdir(SlotOf(b, i), d);
    }
  }

  lemma OneSubdir(e: seq<byte>, d: nat)
    requires IsSlot(e)
    ensures d in SubdirAt(e) <==> SubdirAt(e) == [d]
  {
    hide FirstCluster, IsEntry, IsDir;
  }

  lemma {:induction false} ListedInSubdirs(b: seq<byte>, i: nat, j: nat, d: nat)
    requires i <= j && SLOT * j + SLOT <= |b| && SubdirAt(SlotOf(b, j)) == [d]
    ensures d in SubdirsIn(b, i)
    decreases j - i
  {
    hide SubdirAt;
    if i < j {
      ListedInSubdirs(b, i + 1, j, d);
    }
  }

  /** The subdirectories of a directory are those its clusters list, up to the first unreadable one. */
  lemma {:induction false} SubdirsListed(disk: seq<byte>, g: Geometry, chain: seq<nat>, d: nat) returns (k: nat)
    requires d in Subdirs(disk, g, chain)
    ensures k < |chain| && Lists(disk, g, chain[k], d) && Readable(disk, g, chain[..k])
  {
    hide ClusterData, ListedIn, SubdirsIn;
    if d in SubdirsIn(ClusterData(disk, g, chain[0]).value, 0) {
      SubdirsInListed(ClusterData(disk, g, chain[0]).value, 0, d);
      return 0;
    }
    var j := SubdirsListed(disk, g, chain[1..], d);
    k := j + 1;
    assert chain[..k] == [chain[0]] + chain[1..][..j];
  }

  lemma {:induction false} ListedSubdirs(disk: seq<byte>, g: Geometry, chain: seq<nat>, k: nat, d: nat)
    requires k < |chain| && Lists(disk, g, chain[k], d) && Readable(disk, g, chain[..k])
    ensures d in Subdirs(disk, g, chain)
    decreases k
  {
    hide ClusterData, SubdirsIn, SubdirAt;
    if k == 0 {
      var b := ClusterData(disk, g, chain[0]).value;
      var j: nat :| SLOT * j + SLOT <= |b| && SubdirAt(SlotOf(b, j)) == [d];
      ListedInSubdirs(b, 0, j, d);
    } else {
      assert ClusterData(disk, g, chain[..k][0]).Some?;
      assert chain[1..][..k - 1] == chain[..k][1..];
      ListedSubdirs(disk, g, chain[1..], k - 1, d);
    }
  }

  /** Chains of the new table are those of the old one, or have one new cluster at the end. */
  ghost predicate ChainsGrow(fat: Fat, fat': Fat, c: nat) {
    forall d: nat :: ChainGrows(fat, fat', c, d)
  }

  ghost predicate ChainGrows(fat: Fat, fat': Fat, c: nat, d: nat) {
    ClusterChain(fat', d) <= ClusterChain(fat, d) + [c]
  }

  /** No cluster lists a subdirectory that it did not list before, except a new one. */
  ghost predicate ListsLess(disk: seq<byte>, disk': seq<byte>, g: Geometry, made: nat) {
    |disk'| == |disk| && forall x: nat, d: nat | Lists(disk', g, x, d) && d != made :: Lists(disk, g, x, d)
  }

  lemma SubdirsLess(disk: seq<byte>, disk': seq<byte>, g: Geometry, chain: seq<nat>, chain': seq<nat>, c: nat, made: nat, d: nat)
    requires ListsLess(disk, disk', g, made) && chain' <= chain + [c] && (forall x: nat | x != made :: !Lists(disk', g, c, x))
    requires d in Subdirs(disk', g, chain') && d != made
    ensures d in Subdirs(disk, g, chain)
  {
    hide Lists, Subdirs;
    SomeKept(disk, disk', g);
    hide ClusterData;
    var k := SubdirsListed(disk', g, chain', d);
    assert Lists(disk, g, chain'[k], d);
    assert chain'[k] == (chain + [c])[k];
    assert k < |chain|;
    assert forall i | 0 <= i < k :: chain[..k][i] == chain'[..k][i];
    ListedSubdirs(disk, g, chain, k, d);
  }

  /** Then the new tree is the old one, plus the new clusters. */
  lemma {:induction false} TreeWithin(fat: Fat, fat': Fat, disk: seq<byte>, disk': seq<byte>, g: Geometry, dir: nat, depth: nat, c: nat, made: nat, x: nat)
    requires ChainsGrow(fat, fat', c) && ListsLess(disk, disk', g, made) && (forall d: nat | d != made :: !Lists(disk', g, c, d))
    requires ClusterChain(fat', made) <= [made] && (forall d: nat :: !Lists(disk', g, made, d))
    requires InTree(fat', disk', g, dir, depth, x)
    ensures x == c || x == made || InTree(fat, disk, g, dir, depth, x)
    decreases depth
  {
    hide ChainsGrow, ListsLess, Lists, Subdirs, ClusterChain;
    var chain, chain' := ClusterChain(fat, dir), ClusterChain(fat', dir);
    Grown(fat, fat', c, dir);
    if x in chain' {
      assert x in chain + [c];
    } else {
      var d :| d in Subdirs(disk', g, chain') && InTree(fat', disk', g, d, depth - 1, x);
      if d == made {
        FreshAlone(fat', disk', g, made, depth - 1, x);
      } else {
        SubdirsLess(disk, disk', g, chain, chain', c, made, d);
        TreeWithin(fat, fat', disk, disk', g, d, depth - 1, c, made, x);
      }
    }
  }

  lemma Grown(fat: Fat, fat': Fat, c: nat, d: nat)
    requires ChainsGrow(fat, fat', c)
    ensures ClusterChain(fat', d) <= ClusterChain(fat, d) + [c]
  {
    hide ClusterChain;
    assert ChainGrows(fat, fat', c, d);
  }

  lemma FreshAlone(fat: Fat, disk: seq<byte>, g: Geometry, made: nat, depth: nat, x: nat)
    requires ClusterChain(fat, made) <= [made] && (forall d: nat :: !Lists(disk, g, made, d)) && InTree(fat, disk, g, made, depth, x)
    ensures x == made
  {
    hide Lists, Subdirs, ClusterChain;
    if x !in ClusterChain(fat, made) {
      var d :| d in Subdirs(disk, g, ClusterChain(fat, made)) && InTree(fat, disk, g, d, depth - 1, x);
      assert forall k | 0 <= k < |ClusterChain(fat, made)| :: ClusterChain(fat, made)[k] == made;
      var k := SubdirsListed(disk, g, ClusterChain(fat, made), d);
    }
  }

  lemma {:induction false} TreeClusters(fat: Fat, disk: seq<byte>, g: Geometry, dir: nat, depth: nat, x: nat)
    requires InTree(fat, disk, g, dir, depth, x)
    ensures IsCluster(fat, x)
    decreases depth
  {
    hide Subdirs;
    if x !in ClusterChain(fat, dir) {
      var d :| d in Subdirs(disk, g, ClusterChain(fat, dir)) && InTree(fat, disk, g, d, depth - 1, x);
      TreeClusters(fat, disk, g, d, depth - 1, x);
    }
  }

  lemma ListsLessTrans(a: seq<byte>, b: seq<byte>, c: seq<byte>, g: Geometry, made: nat)
    requires ListsLess(a, b, g, made) && ListsLess(b, c, g, made)
    ensures ListsLess(a, c, g, made)
  {
    hide Lists;
  }

  /** Linking a free cluster behind the end of a chain lengthens walks by that cluster at most. */
  lemma {:induction false} WalkGrows(fat: Fat, fat': Fat, last: nat, c: nat, x: nat, guard: nat)
    requires IsCluster(fat, c) && fat[c] == FREE && |fat'| == |fat| && fat'[c] == EOC
    requires IsCluster(fat, last) && last != c && fat'[last] == c && (EndMark(fat[last]) || !IsCluster(fat, fat[last]))
    requires forall y | 0 <= y < |fat| && y != c && y != last :: fat'[y] == fat[y]
    ensures Walk(fat', x, guard) <= Walk(fat, x, guard) + [c]
    decreases guard
  {
    if guard > 0 && IsCluster(fat, x) {
      if x == last {
        assert Walk(fat, x, guard) == [last];
        if guard > 1 {
          assert Walk(fat', c, guard - 1) == [c];
        }
      } else if x != c && !EndMark(fat[x]) {
        WalkGrows(fat, fat', last, c, fat[x], guard - 1);
        var w, w' := Walk(fat, fat[x], guard - 1), Walk(fat', fat[x], guard - 1);
        assert Walk(fat, x, guard) == [x] + w && Walk(fat', x, guard) == [x] + w';
        hide Walk;
        PrefixCons(x, w', w, c);
      }
    }
  }

  lemma PrefixCons(x: nat, a: seq<nat>, b: seq<nat>, c: nat)
    requires a <= b + [c]
    ensures [x] + a <= ([x] + b) + [c]
  {
    assert ([x] + b) + [c] == [x] + (b + [c]);
  }

  /** Marking a free cluster as the end of a chain changes no walk. */
  lemma {:induction false} WalkMarked(fat: Fat, c: nat, x: nat, guard: nat)
    requires IsCluster(fat, c) && fat[c] == FREE
    ensures Walk(fat[c := EOC], x, guard) == Walk(fat, x, guard)
    decreases guard
  {
    if guard > 0 && IsCluster(fat, x) && x != c && !EndMark(fat[x]) {
      WalkMarked(fat, c, fat[x], guard - 1);
    }
  }
}
