/** What a file of the image contains after it was overwritten and the disk mounted again. */
module FatRemount {
  import opened Bytes
  import opened Disk
  import opened Fat32
  import opened FatBoot
  import opened FatDir
  import opened FatFile
  import opened FatImage
  import opened FatLayout
  import opened FatScan
  import opened FatSearch
  import opened FatState
  import opened FatTable
  import opened FatTree
  import opened Wrappers

  /** Among the entries of the root directory only the file's own starts at its first cluster. */
  lemma StartMatches(p: Payload, root: seq<byte>, f: File, f': File)
    requires RootOk(p, root) && p.sysutils != []
    ensures Hit(Starting(First(p, f)), SlotOf(root, SlotNumber(f'))) <==> f == f'
    ensures !Hit(Starting(First(p, f)), SlotOf(root, 0))
  {
    HeadsDistinctIff(p);
    hide SlotOf, FirstCluster, FileSize;
    var e := SlotOf(root, SlotNumber(f'));
    assert IsFileEntry(e, Pad(Base(f'), 11), First(p, f'), |Content(p, f')|);
    assert e[..11][0] == e[0];
    assert Pad(Base(f'), 11)[0] == Base(f')[0];
  }

  /** The size update finds each file's own slot, in the only directory there is. */
  lemma SizeEntryIs(p: Payload, fat: Fat, disk: seq<byte>, g: Geometry, depth: nat, f: File)
    requires Builds(p) && p.sysutils != [] && FatIs(p, fat) && OnDisk(p, disk, g) && g.spc == 1 && g.root == ROOT
    ensures SizeEntry(fat, disk, g, ROOT, depth, First(p, f)) == At(ROOT, SlotNumber(f))
    ensures !Unsearchable(fat, disk, g, depth, First(p, f))
  {
    RootIsAlone(p, fat, disk, g);
    StartScan(p, disk, g, f);
    hide Scan, ClusterChain, Subdirs, FatIs, OnDisk, First;
    assert [ROOT] + [] == [ROOT];
  }

  lemma StartScan(p: Payload, disk: seq<byte>, g: Geometry, f: File)
    requires p.sysutils != [] && OnDisk(p, disk, g) && g.spc == 1
    ensures Scan(disk, g, [ROOT], Starting(First(p, f))) == At(ROOT, SlotNumber(f))
  {
    hide ClusterData, RootOk, Hit, SlotOf, First;
    var root := ClusterData(disk, g, ROOT).value;
    forall j: nat | j < SlotNumber(f)
      ensures !Hit(Starting(First(p, f)), SlotOf(root, j))
    {
      StartMatches(p, root, f, if j == 1 then Hello else if j == 2 then Forktest else Sysutils);
    }
    StartMatches(p, root, f, f);
    FirstHitIs(root, Starting(First(p, f)), 0, SlotNumber(f));
  }

  /** The state of a mounted image, as values. */
  ghost predicate Pristine(p: Payload, t: Table, disk: seq<byte>, g: Geometry) {
    && Builds(p) && p.sysutils != [] && FatIs(p, t.fat) && OnDisk(p, disk, g) && AllKnown(p, t)
    && g.spc == 1 && g.root == ROOT && GeoOk(g)
  }

  /** After a write to the file its name still leads to its slot, which has the new size and the old first cluster. */
  lemma Rewritten(p: Payload, t: Table, t': Table, disk: seq<byte>, disk': seq<byte>, g: Geometry, id: nat, f: File, depth: nat,
                  touched: set<nat>, size: nat)
    requires Pristine(p, t, disk, g) && TableOk(t) && TableOk(t') && Extended(t, t', id)
    requires id in t.inodes && id in t.chains && t.inodes[id] == FileInode(p, f) && t.chains[id] == Chain(p, f)
    requires id in t'.inodes && id in t'.chains && Written(t, t', disk, disk', g, id, depth, touched)
    requires SizeListed(t'.fat, disk', g, depth, t'.inodes[id].first, size)
    ensures t'.inodes[id].first == First(p, f) && ROOT !in t'.chains[id] && touched !! Elems(t'.chains[id])
    ensures Scan(disk', g, [ROOT], Named(Pad(Base(f), 11))) == At(ROOT, SlotNumber(f)) && ClusterData(disk', g, ROOT).Some?
    ensures EntryInode(SlotOf(ClusterData(disk', g, ROOT).value, SlotNumber(f))) == Inode(First(p, f), size, false)
  {
    hide TableOk, Extended, Changes, OnDisk, FatIs, AllKnown, DirsApart, Patched, SizeEntry, Scan, ClusterData, Elems, Pad, OthersSame;
    hide FirstCluster, FileSize, IsDir, First, Chain, SlotOf, SlotPatched, Unsearchable;
    FileStays(p, t, t', disk, disk', g, id, f, depth, touched);
    var data, first := Elems(t'.chains[id]), First(p, f);
    InElems(t'.chains[id], ROOT);
    SizeEntryIs(p, t.fat, disk, g, depth, f);
    SearchKept(t, t', disk, disk', g, id, depth, data, first, first);
    SlotStays(p, disk, disk', g, f, data, first);
  }

  lemma FileStays(p: Payload, t: Table, t': Table, disk: seq<byte>, disk': seq<byte>, g: Geometry, id: nat, f: File, depth: nat, touched: set<nat>)
    requires Pristine(p, t, disk, g) && TableOk(t) && TableOk(t') && Extended(t, t', id)
    requires id in t.inodes && id in t.chains && t.inodes[id] == FileInode(p, f) && t.chains[id] == Chain(p, f)
    requires id in t'.inodes && id in t'.chains && Written(t, t', disk, disk', g, id, depth, touched)
    ensures t'.inodes[id].first == First(p, f) && ROOT !in t'.chains[id] && Changes(t, t', id) && DirsApart(t, disk, g, depth)
    ensures Patched(disk, disk', g, Elems(t'.chains[id]), First(p, f)) && touched !! Elems(t'.chains[id])
  {
    hide TableOk, Extended, Changes, OnDisk, FatIs, AllKnown, DirsApart, Patched, Elems, OthersSame, First;
    BootedApart(p, t, disk, g, depth);
    ExtendedChanges(t, t', id);
    PrefixOf(t, t', id);
    RootApart(p, t, t', disk, g, id, depth);
    ChainLinked(p, t.fat, f);
  }

  /** The file's slot is found by name as before; it has the same first cluster and kind. */
  lemma SlotStays(p: Payload, disk: seq<byte>, disk': seq<byte>, g: Geometry, f: File, data: set<nat>, target: nat)
    requires OnDisk(p, disk, g) && g.spc == 1 && Patched(disk, disk', g, data, target) && ROOT !in data
    ensures Scan(disk', g, [ROOT], Named(Pad(Base(f), 11))) == At(ROOT, SlotNumber(f)) && ClusterData(disk', g, ROOT).Some?
    ensures var e := SlotOf(ClusterData(disk', g, ROOT).value, SlotNumber(f)); FirstCluster(e) == First(p, f) && !IsDir(e)
  {
    RootScan(p, disk, g, f);
    RootEntry(p, disk, g, f);
    hide OnDisk, Patched, Scan, ClusterData, Pad, FirstCluster, FileSize, IsDir, First, SlotOf, SlotPatched;
    NamedKept(disk, disk', g, [ROOT], Pad(Base(f), 11), data, target);
    SlotKept(disk, disk', g, ROOT, SlotNumber(f), data, target);
    HeadKept(SlotOf(ClusterData(disk, g, ROOT).value, SlotNumber(f)), SlotOf(ClusterData(disk', g, ROOT).value, SlotNumber(f)), target);
  }

  lemma InElems(ch: seq<nat>, c: nat)
    ensures c in Elems(ch) <==> c in ch
  {
  }

  lemma RootApart(p: Payload, t: Table, t': Table, disk: seq<byte>, g: Geometry, id: nat, depth: nat)
    requires Pristine(p, t, disk, g) && DirsApart(t, disk, g, depth) && Changes(t, t', id) && id in t.inodes && !t.inodes[id].isDir
    ensures id in t'.chains && ROOT !in t'.chains[id]
  {
    RootIsAlone(p, t.fat, disk, g);
    assert InTree(t.fat, disk, g, ROOT, depth, ROOT);
    hide InTree;
    DirClusterKept(t, t', id, ROOT);
  }

  /** Mounting again starts from the same boot sector and the same MBR. */
  lemma BootableAgain(disk: seq<byte>, disk': seq<byte>, g: Geometry)
    requires Bootable(disk, g.partStart, g) && g == Shipped(g.partStart) && |disk'| == |disk| && SameHead(disk, disk', g)
    ensures Bootable(disk', g.partStart, g)
  {
    var start := g.partStart;
    assert FatAt(g, 0) == 512 * (start + RSVD);
    hide ParseBpb;
    forall i | 0 <= i < 512 * start + 512
      ensures disk'[i] == disk[i]
    {
    }
    assert disk'[..512] == disk[..512];
    assert StartOf(disk', 2) == StartOf(disk, 2) by {
      assert disk'[486..490] == disk'[..512][486..490] && disk[486..490] == disk[..512][486..490];
    }
    assert Get(disk', 512 * start, 512) == Get(disk, 512 * start, 512);
  }

  /** The table on disk is the one in memory, and the root directory's chain is a proper one. */
  lemma Reloaded(t: Table, disk: seq<byte>, g: Geometry)
    requires TableOk(t) && Coherent(disk, g, t.fat) && GeoOk(g) && 1 in t.inodes && 1 in t.chains
    requires t.inodes[1] == Inode(ROOT, 0, true) && t.chains[1] == [ROOT] && g.root == ROOT
    requires FatAt(g, 0) + FatLen(g) <= |disk|
    ensures LoadFat(disk, g) == t.fat && RootChain(t.fat, disk, g, [ROOT])
  {
    ChainOf(t, 1);
    hide DecodeFat, FatBytes;
    FatBeforeData(g, 0);
    assert Linked(t.fat, t.chains[1]);
  }

  /** The file's chain is nobody's in a table that knows the root directory only. */
  lemma FileAlone(t: Table, t2: Table, id: nat)
    requires TableOk(t) && TableOk(t2) && id in t.inodes && id in t.chains && t2.fat == t.fat && ROOT !in t.chains[id]
    requires t2.inodes == map[1 := Inode(ROOT, 0, true)] && t2.chains == map[1 := [ROOT]]
    ensures ClusterChain(t2.fat, t.inodes[id].first) == t.chains[id] && Distinct(t.chains[id])
    ensures Internable(t2, t.inodes[id].first, false) && !HasInode(t2.inodes, t.inodes[id].first, false)
  {
    ChainOf(t, id);
    ChainProper(t, id);
    OnlyRoot(t2);
    hide ClusterChain, TableOk, Linked, HeadOk, Distinct;
    assert Adoptable(t2, t.inodes[id].first, t.chains[id]);
  }

  lemma ChainProper(t: Table, id: nat)
    requires TableOk(t) && id in t.inodes
    ensures id in t.chains && Linked(t.fat, t.chains[id]) && HeadOk(t.fat, t.inodes[id].first, t.chains[id])
  {
  }

  lemma OnlyRoot(t: Table)
    requires TableOk(t) && t.chains == map[1 := [ROOT]]
    ensures forall c | c in t.slots :: c == ROOT
  {
    hide Linked, HeadOk;
    forall c | c in t.slots
      ensures c == ROOT
    {
      var s := t.slots[c];
      assert t.chains[s.id][s.i] == c;
    }
  }

  /** What a successful overwrite leaves behind for the next mount. */
  ghost predicate Overwritten(p: Payload, f: File, t: Table, disk: seq<byte>, g: Geometry, id: nat, buf: seq<byte>, size: nat) {
    && TableOk(t) && Coherent(disk, g, t.fat) && GeoOk(g) && g.root == ROOT && Bootable(disk, g.partStart, g)
    && 1 in t.inodes && 1 in t.chains && t.inodes[1] == Inode(ROOT, 0, true) && t.chains[1] == [ROOT]
    && id in t.inodes && id in t.chains && t.inodes[id].first == First(p, f) && ROOT !in t.chains[id]
    && Scan(disk, g, [ROOT], Named(Pad(Base(f), 11))) == At(ROOT, SlotNumber(f)) && ClusterData(disk, g, ROOT).Some?
    && EntryInode(SlotOf(ClusterData(disk, g, ROOT).value, SlotNumber(f))) == Inode(First(p, f), size, false)
    && Readable(disk, g, t.chains[id]) && FileSlice(disk, g, t.chains[id], 0, |buf|) == buf
  }

  /** Mount the disk again, look the file up and read it. */
  method Remount(disk: seq<byte>, ghost p: Payload, ghost f: File, ghost t: Table, ghost g: Geometry, ghost id: nat, name: seq<byte>,
                 ghost buf: seq<byte>, ghost size: nat, len: nat)
    returns (r: Result<seq<byte>>)
    requires Overwritten(p, f, t, disk, g, id, buf, size) && ShortName(name) == Pad(Base(f), 11)
    requires buf != [] && Min(size, len) == |buf|
    ensures r == Ok(buf)
  {
    hide TableOk, Coherent, Scan, ClusterData, Readable, FileSlice, Pad, ShortName, RootChain, Internable, HasInode, ClusterChain;
    hide FirstCluster, FileSize, IsDir, First, SlotOf, ParseBpb, IsFat32, StartOf, LoadFat;
    Reloaded(t, disk, g);
    var d := MountAt(disk, g.partStart, g, [ROOT]);
    FileAlone(t, d.value.State(), id);
    var found := d.value.Lookup(1, name);
    r := d.value.Read(found.value, 0, len);
  }

  lemma HeadSame(disk: seq<byte>, disk': seq<byte>, g: Geometry, touched: set<nat>)
    requires SameClusters(disk, disk', g, touched)
    ensures |disk'| == |disk| && SameHead(disk, disk', g)
  {
    hide ClusterData;
  }

  lemma RootStays(t: Table, t': Table, id: nat)
    requires Extended(t, t', id) && 1 in t.inodes && 1 in t.chains && id != 1
    ensures 1 in t'.inodes && 1 in t'.chains && t'.inodes[1] == t.inodes[1] && t'.chains[1] == t.chains[1]
  {
    hide FreeClusters, Elems;
  }

  lemma GoodAtStart(n: nat)
    ensures GoodWrite(512, 0, n)
  {
  }

  lemma NeededWithin(n: nat, k: nat)
    ensures n <= 512 * k ==> Needed(0 + n, 512) <= k
  {
  }

  /** Overwrite a file of the image from its start. Within the file's own clusters that always succeeds. */
  method Overwrite(d: Driver, ghost p: Payload, ghost f: File, name: seq<byte>, buf: seq<byte>, depth: nat)
    returns (w: Result<nat>, ghost id: nat)
    requires Booted(p, d) && ShortName(name) == Pad(Base(f), 11) && buf != [] && |buf| < 0x1_0000_0000
    modifies d
    ensures |buf| <= 512 * Length(p, f) ==> w.Ok?
    ensures w.Ok? ==>
              && w == Ok(|buf|)
              && Overwritten(p, f, d.State(), d.disk, d.g, id, buf, if |buf| > |Content(p, f)| then |buf| else |Content(p, f)|)
  {
    hide OnDisk, FatIs, ShortName, Known, TableOk, Scan, Pad, Flatten, ClusterChain, Internable, ClusterData, FirstCluster, FileSize;
    hide Bootable, Readable, FileSlice, WriteLoop, Written, Extended, SameClusters, Coherent, SizeListed, Unsearchable, DirsApart, Elems;
    hide FreeClusters, Needed, GoodWrite, EntryInode, First, Chain, Content, SlotOf, HasInode;
    RootScan(p, d.disk, d.g, f);
    ghost var t0 := d.State();
    TableKeys(t0);
    RootEntry(p, d.disk, d.g, f);
    FileInternable(p, t0, f);
    ChainIs(p, d.fat, f);
    var found := d.Lookup(1, name);
    id := found.value;
    ghost var t, disk := d.State(), d.disk;
    FoundInode(p, t0, t, id, f, disk, d.g);
    FileFlat(p, disk, d.g, f);
    BootedApart(p, t, disk, d.g, depth);
    SizeEntryIs(p, t.fat, disk, d.g, depth, f);
    ghost var touched;
    w, touched := d.Write(found.value, 0, buf, depth);
    if w.Err? {
      FirstOfExtended(t, d.State(), id);
      NeededWithin(|buf|, Length(p, f));
      return;
    }
    SizesFit(p, f);
    HeadSame(disk, d.disk, d.g, Elems(d.chains[id]) + touched);
    GoodAtStart(|buf|);
    RootStays(t, d.State(), id);
    ghost var size := if |buf| > |Content(p, f)| then |buf| else |Content(p, f)|;
    Rewritten(p, t, d.State(), disk, d.disk, d.g, id, f, depth, touched, size);
    BootableAgain(disk, d.disk, d.g);
    WrittenSlice(disk, d.disk, d.g, d.chains[id], 0, buf);
  }

  /** Overwrite a file of the image from its start, mount the disk again, look the file up by any spelling and read it:
      the new bytes, and no more than these if the file was not longer. Overwriting within the file's own clusters
      always succeeds. */
  method WriteThenRemount(d: Driver, ghost p: Payload, ghost f: File, name: seq<byte>, buf: seq<byte>, name': seq<byte>, len: nat, depth: nat)
    returns (w: Result<nat>, r: Result<seq<byte>>)
    requires Booted(p, d) && ShortName(name) == ShortName(name') == Pad(Base(f), 11) && buf != [] && |buf| < 0x1_0000_0000
    requires len == |buf| || len > |buf| >= |Content(p, f)|
    modifies d
    ensures |buf| <= 512 * Length(p, f) ==> w.Ok?
    ensures w.Ok? ==> w == Ok(|buf|) && r == Ok(buf)
  {
    hide Booted, ShortName, Pad, Content, Overwritten, Length;
    r := Err("");
    ghost var id;
    w, id := Overwrite(d, p, f, name, buf, depth);
    if w.Err? {
      return;
    }
    r := Remount(d.disk, p, f, d.State(), d.g, id, name', buf, if |buf| > |Content(p, f)| then |buf| else |Content(p, f)|, len);
  }
}
