/** Booting from the built image: find the partition, mount it, look up and read every file back. */
module FatBoot {
  import opened Bytes
  import opened Disk
  import opened Fat32
  import opened FatDir
  import opened FatFile
  import opened FatImage
  import opened FatLayout
  import opened FatScan
  import opened FatState
  import opened FatTable
  import opened FatTree
  import opened Wrappers

  /** MBR partition entries of the two FAT32 types. */
  predicate IsFat32(disk: seq<byte>, i: nat)
    requires i < 4 && |disk| >= 512
  {
    disk[450 + 16 * i] == 0x0C || disk[450 + 16 * i] == 0x0B
  }

  function StartOf(disk: seq<byte>, i: nat): nat
    requires i < 4 && |disk| >= 512
  {
    LeDecode(disk[454 + 16 * i..458 + 16 * i])
  }

  function SizeOf(disk: seq<byte>, i: nat): nat
    requires i < 4 && |disk| >= 512
  {
    LeDecode(disk[458 + 16 * i..462 + 16 * i])
  }

  /** `find_fat32_partition`: start and size of the last FAT32 entry of the MBR. */
  method FindPartition(disk: seq<byte>) returns (r: Option<(nat, nat)>)
    requires |disk| >= 512
    ensures disk[510] == 0x55 && disk[511] == 0xAA ==>
              forall i: nat | i < 4 && IsFat32(disk, i) && (forall j | i < j < 4 :: !IsFat32(disk, j)) ::
                r == Some((StartOf(disk, i), SizeOf(disk, i)))
    ensures r.None? <==> !(disk[510] == 0x55 && disk[511] == 0xAA) || forall i: nat | i < 4 :: !IsFat32(disk, i)
  {
    if disk[510] != 0x55 || disk[511] != 0xAA {
      return None;
    }
    var i := 4;
    while i > 0
      invariant 0 <= i <= 4
      invariant forall j | i <= j < 4 :: !IsFat32(disk, j)
    {
      i := i - 1;
      if IsFat32(disk, i) {
        return Some((StartOf(disk, i), SizeOf(disk, i)));
      }
    }
    return None;
  }

  /** Where the build script really puts the partition. */
  function Placed(boot: seq<byte>): nat { (|boot| + 511) / 512 }

  /** The tail of the build script: pad the boot image, append the partition, fill in MBR entry 2.
      None where the script panics. The sectors are counted before padding, so the MBR names the
      partition's place exactly when the boot image is a whole number of sectors. */
  method AppendPartition(boot: seq<byte>, part: seq<byte>) returns (r: Option<seq<byte>>)
    requires |boot| >= 512 && |boot| / 512 < 0x1_0000_0000
    ensures r.Some? <==> boot[510] == 0x55 && boot[511] == 0xAA
    ensures r.Some? ==>
              && |r.value| == 512 * Placed(boot) + |part| && r.value[512 * Placed(boot)..] == part
              && r.value[510] == 0x55 && r.value[511] == 0xAA
              && IsFat32(r.value, 2) && (IsFat32(r.value, 3) <==> IsFat32(boot, 3))
              && StartOf(r.value, 2) == |boot| / 512
              && (StartOf(r.value, 2) == Placed(boot) <==> |boot| % 512 == 0)
  {
    hide Put, IsFat32, StartOf;
    BootEntry(boot);
    var image := boot;
    var bootSectors := |boot| / 512;
    if |image| % 512 != 0 {
      image := image + Zeros(512 - |image| % 512);
    }
    assert |image| == 512 * Placed(boot);
    ghost var n := |image|;
    image := image + part;
    assert image[n..] == part;
    if image[510] != 0x55 || image[511] != 0xAA {
      return None;
    }
    assert image[..512] == boot[..512];
    ghost var rest := image[512..];
    assert image[n..] == rest[n - 512..];
    var mbr := PatchMbr(image[..512], bootSectors);
    image := mbr + image[512..];
    MbrOf(mbr, image[512..]);
    assert image[n..] == image[512..][n - 512..];
    return Some(image);
  }

  lemma BootEntry(boot: seq<byte>)
    requires |boot| >= 512
    ensures IsFat32(boot[..512], 3) <==> IsFat32(boot, 3)
  {
  }

  /** Partition entry 2 and the signature, in the first sector of the image. */
  method PatchMbr(mbr: seq<byte>, start: nat) returns (r: seq<byte>)
    requires |mbr| == 512 && start < 0x1_0000_0000
    ensures |r| == 512 && r[510] == 0x55 && r[511] == 0xAA
    ensures IsFat32(r, 2) && StartOf(r, 2) == start && (IsFat32(r, 3) <==> IsFat32(mbr, 3))
  {
    hide LeEncode, Put;
    r := Patch(mbr, 478, [0x00]);
    r := Patch(r, 482, [0x0C]);
    r := Patch(r, 486, LeEncode(start, 4));
    assert r[486..490] == LeEncode(start, 4);
    r := KeepPatch(r, 490, LeEncode(SECTORS, 4), 486, 490);
    r := KeepPatch(r, 510, [0x55], 486, 490);
    r := KeepPatch(r, 511, [0xAA], 486, 490);
    Le4(start);
  }

  lemma MbrOf(mbr: seq<byte>, rest: seq<byte>)
    requires |mbr| == 512
    ensures var image := mbr + rest;
            && image[510] == mbr[510] && image[511] == mbr[511]
            && (forall i: nat | i < 4 :: IsFat32(image, i) == IsFat32(mbr, i))
            && StartOf(image, 2) == StartOf(mbr, 2)
  {
    var image := mbr + rest;
    assert image[486..490] == mbr[486..490];
  }

  /** The files lie where their directory entries and chains say. */
  ghost predicate OnDisk(p: Payload, disk: seq<byte>, g: Geometry) {
    && ClusterData(disk, g, ROOT).Some? && RootOk(p, ClusterData(disk, g, ROOT).value)
    && forall f: File, i: nat | i < Length(p, f) :: ClusterData(disk, g, First(p, f) + i) == Some(Block(Content(p, f), 512 * i))
  }

  ghost predicate FatIs(p: Payload, fat: Fat) {
    |fat| == 128 * FAT_SZ && forall i: nat | i < |fat| :: fat[i] == TableEntry(p, i)
  }

  lemma SubRange(disk: seq<byte>, at: nat, n: nat, from: nat, m: nat)
    requires at + n <= |disk| && from + m <= n
    ensures Get(disk, at, n)[from..from + m] == disk[at + from..at + from + m]
  {
    var g := Get(disk, at, n);
    var a, b := g[from..from + m], disk[at + from..at + from + m];
    forall k | 0 <= k < m
      ensures a[k] == b[k]
    {
      assert a[k] == g[from + k] == disk[at + from + k];
    }
  }

  lemma SectorData(p: Payload, disk: seq<byte>, start: nat, part: seq<byte>, c: nat)
    requires |part| == 512 * SECTORS && 512 * start + 512 * SECTORS <= |disk| && Get(disk, 512 * start, 512 * SECTORS) == part
    requires 2 <= c < SECTORS - DATA_START + 2
    ensures ClusterData(disk, Shipped(start), c) == Some(DataSector(part, c - 2))
  {
    var at := 512 * (DATA_START + c - 2);
    assert ClusterAt(Shipped(start), c) == 512 * start + at;
    SubRange(disk, 512 * start, 512 * SECTORS, at, 512);
  }

  /** The table has 26 entries more than the data area has clusters. The allocator hands them out like the others, but
      on a disk that ends with the partition no data can be read or written there: exactly from cluster 16102 on. */
  lemma PhantomClusters(p: Payload, fat: Fat, disk: seq<byte>, start: nat, c: nat)
    requires FatIs(p, fat) && |disk| == 512 * (start + SECTORS) && IsCluster(fat, c)
    ensures ClusterData(disk, Shipped(start), c).None? <==> c >= SECTORS - DATA_START + 2
    ensures |fat| == SECTORS - DATA_START + 2 + 26
  {
    assert ClusterAt(Shipped(start), c) == 512 * (start + DATA_START + c - 2);
  }

  lemma FatData(disk: seq<byte>, start: nat, part: seq<byte>, k: nat)
    requires |part| == 512 * SECTORS && 512 * start + 512 * SECTORS <= |disk| && Get(disk, 512 * start, 512 * SECTORS) == part
    requires k < 2
    ensures FatAt(Shipped(start), k) + FatLen(Shipped(start)) <= |disk|
    ensures FatBytes(disk, Shipped(start), k) == part[512 * (RSVD + FAT_SZ * k)..512 * (RSVD + FAT_SZ * k) + 512 * FAT_SZ]
  {
    var at := 512 * (RSVD + FAT_SZ * k);
    assert FatAt(Shipped(start), k) == 512 * start + at;
    SubRange(disk, 512 * start, 512 * SECTORS, at, 512 * FAT_SZ);
  }

  /** Every cluster of every file. */
  lemma FileSector(p: Payload, root: seq<byte>, f: File, i: nat)
    requires Builds(p) && i < Length(p, f)
    ensures 2 < First(p, f) + i < SECTORS - DATA_START + 2 && First(p, f) + i - 2 < START - 1 + Clusters(p)
    ensures DataBlock(p, root, First(p, f) + i - 2) == Block(Content(p, f), 512 * i)
  {
  }

  lemma PartitionOnDisk(p: Payload, disk: seq<byte>, start: nat, part: seq<byte>)
    requires Builds(p) && PartitionOk(p, part)
    requires 512 * start + 512 * SECTORS <= |disk| && Get(disk, 512 * start, 512 * SECTORS) == part
    ensures OnDisk(p, disk, Shipped(start)) && Fits(disk, Shipped(start))
  {
    hide RootOk, DataBlock, DataSector, ClusterData, ParseBpb, TableOf;
    SectorData(p, disk, start, part, ROOT);
    forall f: File, i: nat | i < Length(p, f)
      ensures ClusterData(disk, Shipped(start), First(p, f) + i) == Some(Block(Content(p, f), 512 * i))
    {
      FileSector(p, DataSector(part, 0), f, i);
      SectorData(p, disk, start, part, First(p, f) + i);
    }
  }

  lemma TablesOnDisk(p: Payload, disk: seq<byte>, start: nat, part: seq<byte>, k: nat)
    requires PartitionOk(p, part) && k < 2
    requires 512 * start + 512 * SECTORS <= |disk| && Get(disk, 512 * start, 512 * SECTORS) == part
    ensures FatAt(Shipped(start), k) + FatLen(Shipped(start)) <= |disk| && FatIs(p, DecodeFat(FatBytes(disk, Shipped(start), k)))
  {
    hide RootOk, DataBlock, DataSector, ParseBpb, FatBytes, DecodeFat;
    FatData(disk, start, part, k);
    TableFacts(p, part, k);
  }

  lemma TableFacts(p: Payload, part: seq<byte>, k: nat)
    requires PartitionOk(p, part) && k < 2
    ensures TableOf(p, part[512 * (RSVD + FAT_SZ * k)..512 * (RSVD + FAT_SZ * k) + 512 * FAT_SZ])
  {
    hide RootOk, DataBlock, DataSector, ParseBpb, TableOf;
  }

  /** Both FAT copies decode to the same table. */
  lemma BootCoherent(p: Payload, disk: seq<byte>, start: nat, part: seq<byte>, fat: Fat)
    requires PartitionOk(p, part) && FatIs(p, fat)
    requires 512 * start + 512 * SECTORS <= |disk| && Get(disk, 512 * start, 512 * SECTORS) == part
    ensures Coherent(disk, Shipped(start), fat)
  {
    hide PartitionOk, FatBytes, DecodeFat;
    var g := Shipped(start);
    forall k: nat | k < g.numFats
      ensures (FatBeforeData(g, k); |FatBytes(disk, g, k)| % 4 == 0 && DecodeFat(FatBytes(disk, g, k)) == fat)
    {
      FatBeforeData(g, k);
      TablesOnDisk(p, disk, start, part, k);
      assert DecodeFat(FatBytes(disk, g, k)) == fat;
    }
  }

  /** The table links every file's clusters in order. */
  lemma ChainLinked(p: Payload, fat: Fat, f: File)
    requires Builds(p) && FatIs(p, fat)
    ensures Linked(fat, Chain(p, f)) && Distinct(Chain(p, f))
    ensures p.sysutils != [] ==> Chain(p, f) != [] && Chain(p, f)[0] == First(p, f)
  {
    var ch := Chain(p, f);
    forall i: nat | i < |ch| - 1
      ensures LinkAt(fat, ch, i)
    {
    }
  }

  lemma RootLinked(p: Payload, fat: Fat)
    requires Builds(p) && FatIs(p, fat)
    ensures Linked(fat, [ROOT]) && Distinct([ROOT])
  {
  }

  /** No cluster is shared, neither between files nor with the root directory. */
  lemma ChainsApart(p: Payload, f: File, i: nat, f': File, i': nat)
    requires i < Length(p, f) && i' < Length(p, f') && First(p, f) + i == First(p, f') + i'
    ensures f == f' && First(p, f) != ROOT
  {
  }

  /** The files start at different clusters exactly when SYSUTILS is not empty; an empty one shares
      README's first cluster, so both names intern to one inode. */
  lemma HeadsDistinctIff(p: Payload)
    ensures (forall f: File, f': File | f != f' :: First(p, f) != First(p, f')) <==> p.sysutils != []
  {
    if p.sysutils == [] {
      assert First(p, Sysutils) == First(p, Readme);
    }
  }

  lemma {:induction false} FirstHitIs(b: seq<byte>, q: Query, i: nat, r: nat)
    requires i <= r && SLOT * r + SLOT <= |b| && Hit(q, SlotOf(b, r))
    requires forall j: nat | i <= j < r :: !Hit(q, SlotOf(b, j))
    ensures FirstHit(b, q, i) == r
    decreases r - i
  {
    if i < r {
      FirstHitIs(b, q, i + 1, r);
    }
  }

  lemma SlotMatches(p: Payload, root: seq<byte>, f: File, f': File)
    requires RootOk(p, root)
    ensures Hit(Named(Pad(Base(f), 11)), SlotOf(root, SlotNumber(f'))) <==> f == f'
    ensures !Hit(Named(Pad(Base(f), 11)), SlotOf(root, 0))
  {
    hide SlotOf;
    var e := SlotOf(root, SlotNumber(f'));
    assert IsFileEntry(e, Pad(Base(f'), 11), First(p, f'), |Content(p, f')|);
    assert e[..11][0] == e[0] && SlotOf(root, 0)[..11][0] == SlotOf(root, 0)[0];
    assert Pad(Base(f), 11)[0] == Base(f)[0];
    assert Pad(Base(f'), 11)[0] == Base(f')[0];
    assert Label()[0] == 0x41;
  }

  /** The scan of the root directory finds each file's own slot. */
  lemma RootScan(p: Payload, disk: seq<byte>, g: Geometry, f: File)
    requires OnDisk(p, disk, g) && g.spc == 1
    ensures Scan(disk, g, [ROOT], Named(Pad(Base(f), 11))) == At(ROOT, SlotNumber(f))
  {
    hide ClusterData, RootOk, Hit, SlotOf;
    var root := ClusterData(disk, g, ROOT).value;
    forall j: nat | j < SlotNumber(f)
      ensures !Hit(Named(Pad(Base(f), 11)), SlotOf(root, j))
    {
      SlotMatches(p, root, f, if j == 1 then Hello else if j == 2 then Forktest else Sysutils);
    }
    SlotMatches(p, root, f, f);
    FirstHitIs(root, Named(Pad(Base(f), 11)), 0, SlotNumber(f));
  }

  /** The 8.3 conversion leaves the image's names alone. */
  lemma ShortNames(f: File)
    ensures ShortName(Base(f)) == Pad(Base(f), 11)
  {
    var s := Base(f);
    assert forall i | 0 <= i < |s| :: s[i] != 0x2E && Upper(s[i]) == s[i];
    assert LastDot(s) == -1;
    assert UpperAll(s) == s;
  }

  function FileInode(p: Payload, f: File): Inode { Inode(First(p, f), |Content(p, f)|, false) }

  /** What `init` needs to find: the MBR names the partition, whose boot sector parses to `g`, with a FAT inside the disk. */
  ghost predicate Bootable(disk: seq<byte>, start: nat, g: Geometry) {
    && |disk| >= 512 && disk[510] == 0x55 && disk[511] == 0xAA
    && IsFat32(disk, 2) && !IsFat32(disk, 3) && StartOf(disk, 2) == start
    && 512 * start + 512 <= |disk| && ParseBpb(start, Get(disk, 512 * start, 512)) == Some(g)
    && FatAt(g, 0) + FatLen(g) <= |disk|
  }

  /** The mounted image: the root directory is inode 1, every other inode is one of the files. */
  ghost predicate Booted(p: Payload, d: Driver)
    reads d
  {
    && Builds(p) && p.sysutils != [] && d.Valid() && d.g == Shipped(d.g.partStart) && Bootable(d.disk, d.g.partStart, d.g)
    && OnDisk(p, d.disk, d.g) && FatIs(p, d.fat)
    && 1 in d.inodes && 1 in d.chains && d.inodes[1] == Inode(ROOT, 0, true) && d.chains[1] == [ROOT]
    && forall id | id in d.inodes && id in d.chains :: Known(p, d.inodes[id], d.chains[id])
  }

  ghost predicate Known(p: Payload, ino: Inode, ch: seq<nat>) {
    (ino == Inode(ROOT, 0, true) && ch == [ROOT]) || exists f: File :: ino == FileInode(p, f) && ch == Chain(p, f)
  }

  /** An inode with a file's first cluster is that file's inode. */
  lemma KnownByHead(p: Payload, ino: Inode, ch: seq<nat>, f: File)
    requires Known(p, ino, ch) && p.sysutils != [] && ino.first == First(p, f)
    ensures ino == FileInode(p, f) && ch == Chain(p, f)
  {
    HeadsDistinctIff(p);
  }

  /** A file that has no inode yet has no cluster in any chain. */
  lemma FileAdoptable(p: Payload, t: Table, f: File)
    requires TableOk(t) && Builds(p) && p.sysutils != [] && FatIs(p, t.fat)
    requires forall id | id in t.inodes && id in t.chains :: Known(p, t.inodes[id], t.chains[id])
    requires !HasInode(t.inodes, First(p, f), false)
    ensures Adoptable(t, First(p, f), Chain(p, f))
  {
    ChainLinked(p, t.fat, f);
    var ch := Chain(p, f);
    hide Linked, FatIs, Known, Distinct, HasInode;
    forall i: nat | i < |ch|
      ensures ch[i] !in t.slots
    {
      if ch[i] in t.slots {
        var s := t.slots[ch[i]];
        assert t.chains[s.id][s.i] == ch[i];
        Taken(p, t.inodes, s.id, t.chains[s.id], s.i, f, i);
      }
    }
  }

  lemma Taken(p: Payload, inodes: map<nat, Inode>, id: nat, ch: seq<nat>, j: nat, f: File, i: nat)
    requires id in inodes && Known(p, inodes[id], ch) && i < Length(p, f) && j < |ch| && ch[j] == First(p, f) + i
    ensures HasInode(inodes, First(p, f), false)
  {
    if ch == [ROOT] {
      ChainsApart(p, f, i, f, i);
    }
    var f' :| inodes[id] == FileInode(p, f') && ch == Chain(p, f');
    ChainsApart(p, f', j, f, i);
  }

  /** The bytes of a chain are the file, followed by padding. */
  lemma FileFlat(p: Payload, disk: seq<byte>, g: Geometry, f: File)
    requires OnDisk(p, disk, g) && g.spc == 1 && GeoOk(g) && Builds(p)
    ensures Readable(disk, g, Chain(p, f))
    ensures |Content(p, f)| <= |Flatten(ChainBlocks(disk, g, Chain(p, f)), 512)|
    ensures Flatten(ChainBlocks(disk, g, Chain(p, f)), 512)[..|Content(p, f)|] == Content(p, f)
  {
    hide ClusterData, Flatten, RootOk;
    var ch, c := Chain(p, f), Content(p, f);
    forall i: nat | i < |ch|
      ensures ClusterData(disk, g, ch[i]) == Some(Block(c, 512 * i))
    {
      assert ch[i] == First(p, f) + i;
    }
    var blocks := ChainBlocks(disk, g, ch);
    var flat := Flatten(blocks, 512);
    forall k: nat | k < |c|
      ensures flat[k] == c[k]
    {
      var i, j := k / 512, k % 512;
      FlattenAt(blocks, 512, i, j);
      assert blocks[i] == Block(c, 512 * i);
    }
  }

  /** Mount the partition the MBR names; None where `init` gives up. */
  method Mount(disk: seq<byte>, ghost p: Payload, ghost part: seq<byte>, ghost start: nat) returns (d: Option<Driver>)
    requires |disk| >= 512 && disk[510] == 0x55 && disk[511] == 0xAA && IsFat32(disk, 2) && !IsFat32(disk, 3) && StartOf(disk, 2) == start
    requires Builds(p) && p.sysutils != [] && PartitionOk(p, part)
    requires |disk| == 512 * start + 512 * SECTORS && Get(disk, 512 * start, 512 * SECTORS) == part
    ensures d.Some? && fresh(d.value) && Booted(p, d.value) && Coherent(d.value.disk, d.value.g, d.value.fat)
  {
    hide PartitionOk, OnDisk, FatIs, ParseBpb, Linked, IsFat32, StartOf, Coherent, TableOk;
    BpbOf(p, part, Get(disk, 512 * start, 512));
    PartitionOnDisk(p, disk, start, part);
    TablesOnDisk(p, disk, start, part, 0);
    d := MountAt(disk, start, Shipped(start), [ROOT]);
    RootLinked(p, d.value.fat);
    BootCoherent(p, disk, start, part, d.value.fat);
    FatSize(p, d.value.fat);
  }

  /** The chain of the root directory is a proper one. */
  ghost predicate RootChain(fat: Fat, disk: seq<byte>, g: Geometry, ch: seq<nat>) {
    GeoOk(g) && Fits(disk, g) && |fat| <= GUARD && Linked(fat, ch) && Distinct(ch) && HeadOk(fat, g.root, ch)
  }

  /** `init`: the partition, its boot sector, then the driver. */
  method MountAt(disk: seq<byte>, ghost start: nat, ghost geo: Geometry, ghost ch: seq<nat>) returns (d: Option<Driver>)
    requires Bootable(disk, start, geo)
    ensures d.Some? && fresh(d.value) && d.value.g == geo && d.value.disk == disk && d.value.fat == LoadFat(disk, geo)
    ensures d.value.inodes == map[1 := Inode(geo.root, 0, true)] && d.value.chains == map[1 := ch]
    ensures RootChain(d.value.fat, disk, geo, ch) ==> d.value.Valid()
  {
    hide ParseBpb, Linked, IsFat32, StartOf, TableOk, LoadFat;
    var found := FindPartition(disk);
    if found.None? {
      return None;
    }
    var at := found.value.0;
    if 512 * at + 512 > |disk| {
      return None;
    }
    var bpb := Get(disk, 512 * at, 512);
    var g := ParseBpb(at, bpb);
    if g.None? {
      return None;
    }
    ParsedGeo(at, bpb);
    var driver := new Driver(g.value, disk, ch);
    d := Some(driver);
  }

  lemma ParsedGeo(start: nat, bpb: seq<byte>)
    requires |bpb| == 512 && ParseBpb(start, bpb).Some?
    ensures ParseBpb(start, bpb).value.spc > 0 && ParseBpb(start, bpb).value.fatSz > 0
  {
  }

  lemma FatSize(p: Payload, fat: Fat)
    requires FatIs(p, fat)
    ensures |fat| == 128 * FAT_SZ
  {
  }

  lemma BpbOf(p: Payload, part: seq<byte>, bpb: seq<byte>)
    requires PartitionOk(p, part) && |bpb| == 512 && bpb == part[..512]
    ensures forall start: nat :: ParseBpb(start, bpb) == Some(Shipped(start))
  {
    hide ParseBpb, RootOk, TableOf, DataBlock, DataSector;
  }

  ghost predicate AllKnown(p: Payload, t: Table) {
    forall id | id in t.inodes && id in t.chains :: Known(p, t.inodes[id], t.chains[id])
  }

  lemma RootEntry(p: Payload, disk: seq<byte>, g: Geometry, f: File)
    requires OnDisk(p, disk, g) && g.spc == 1
    ensures ClusterData(disk, g, ROOT).Some? && EntryInode(SlotOf(ClusterData(disk, g, ROOT).value, SlotNumber(f))) == FileInode(p, f)
  {
    hide ClusterData, SlotOf, FirstCluster, FileSize, First;
    var root := ClusterData(disk, g, ROOT).value;
    assert IsFileEntry(SlotOf(root, SlotNumber(f)), Pad(Base(f), 11), First(p, f), |Content(p, f)|);
  }

  /** The walk finds each file's chain. */
  lemma ChainIs(p: Payload, fat: Fat, f: File)
    requires Builds(p) && p.sysutils != [] && FatIs(p, fat)
    ensures ClusterChain(fat, First(p, f)) == Chain(p, f)
  {
    ChainLinked(p, fat, f);
    FatSize(p, fat);
    hide FatIs, Chain, ClusterChain;
    GuardSuffices(fat, Chain(p, f));
  }

  lemma FileInternable(p: Payload, t: Table, f: File)
    requires TableOk(t) && Builds(p) && p.sysutils != [] && FatIs(p, t.fat) && AllKnown(p, t)
    ensures Internable(t, First(p, f), false)
  {
    hide TableOk, HasInode, Adoptable, Known, ClusterChain;
    ChainIs(p, t.fat, f);
    if !HasInode(t.inodes, First(p, f), false) {
      FileAdoptable(p, t, f);
    }
  }

  /** Lookup yields the file's own inode, whether it was there before or not. */
  lemma FoundInode(p: Payload, t: Table, t': Table, id: nat, f: File, disk: seq<byte>, g: Geometry)
    requires p.sysutils != [] && OnDisk(p, disk, g) && g.spc == 1 && AllKnown(p, t) && t.chains.Keys == t.inodes.Keys
    requires ClusterData(disk, g, ROOT).Some?
    requires Interned(t, t', id, EntryInode(SlotOf(ClusterData(disk, g, ROOT).value, SlotNumber(f))), Chain(p, f))
    ensures id in t'.inodes && id in t'.chains && t'.inodes[id] == FileInode(p, f) && t'.chains[id] == Chain(p, f)
    ensures AllKnown(p, t') && t'.fat == t.fat
    ensures forall j | j in t.inodes && j in t.chains ::
              j in t'.inodes && j in t'.chains && t'.inodes[j] == t.inodes[j] && t'.chains[j] == t.chains[j]
  {
    hide OnDisk, ClusterData, HasInode, FirstCluster, FileSize, SlotOf, IsDir, Chain;
    RootEntry(p, disk, g, f);
    var ino := FileInode(p, f);
    if HasInode(t.inodes, ino.first, ino.isDir) {
      KnownByHead(p, t.inodes[id], t.chains[id], f);
    } else {
      assert Known(p, ino, Chain(p, f));
    }
  }

  lemma SliceOf(p: Payload, disk: seq<byte>, g: Geometry, f: File, from: nat, to: nat)
    requires OnDisk(p, disk, g) && g.spc == 1 && GeoOk(g) && Builds(p) && Readable(disk, g, Chain(p, f))
    requires to <= |Content(p, f)|
    ensures FileSlice(disk, g, Chain(p, f), from, to) == if from < to then Content(p, f)[from..to] else []
  {
    hide OnDisk, Readable, Flatten, Content, Chain;
    FileFlat(p, disk, g, f);
    var flat, c := Flatten(ChainBlocks(disk, g, Chain(p, f)), 512), Content(p, f);
    if from < to {
      assert flat[from..to] == flat[..|c|][from..to];
    }
  }

  /** The image has one directory, apart from all files. */
  lemma BootedApart(p: Payload, t: Table, disk: seq<byte>, g: Geometry, depth: nat)
    requires TableOk(t) && Builds(p) && FatIs(p, t.fat) && AllKnown(p, t) && OnDisk(p, disk, g) && g.spc == 1 && g.root == ROOT
    ensures DirsApart(t, disk, g, depth)
  {
    hide OnDisk, TableOk, ClusterData, Known, ClusterChain, Subdirs;
    RootIsAlone(p, t.fat, disk, g);
    forall c: nat | InTree(t.fat, disk, g, g.root, depth, c)
      ensures IsDirCluster(t, c)
    {
      assert c == ROOT;
      forall j | j in t.inodes && j in t.chains && !t.inodes[j].isDir
        ensures ROOT !in t.chains[j]
      {
        FileAvoidsRoot(p, t.inodes[j], t.chains[j]);
      }
    }
  }

  lemma FileAvoidsRoot(p: Payload, ino: Inode, ch: seq<nat>)
    requires Known(p, ino, ch) && !ino.isDir
    ensures ROOT !in ch
  {
  }

  lemma RootIsAlone(p: Payload, fat: Fat, disk: seq<byte>, g: Geometry)
    requires Builds(p) && FatIs(p, fat) && OnDisk(p, disk, g) && g.spc == 1
    ensures ClusterChain(fat, ROOT) == [ROOT] && Subdirs(disk, g, [ROOT]) == []
  {
    RootLinked(p, fat);
    FatSize(p, fat);
    GuardSuffices(fat, [ROOT]);
    var root := ClusterData(disk, g, ROOT).value;
    hide FatIs, ClusterChain, ClusterData, FirstCluster;
    NoSubdirs(p, root, 0);
    assert [ROOT][1..] == [];
  }

  lemma {:induction false} NoSubdirs(p: Payload, root: seq<byte>, i: nat)
    requires RootOk(p, root)
    ensures SubdirsIn(root, i) == []
    decreases 16 - i
  {
    if i < 16 {
      hide SubdirAt;
      NoSubdirAt(p, root, i);
      NoSubdirs(p, root, i + 1);
    }
  }

  lemma NoSubdirAt(p: Payload, root: seq<byte>, i: nat)
    requires RootOk(p, root) && i < 16
    ensures SubdirAt(SlotOf(root, i)) == []
  {
    hide FirstCluster, FileSize;
    if 1 <= i < 5 {
      var f := if i == 1 then Hello else if i == 2 then Forktest else if i == 3 then Sysutils else Readme;
      assert IsFileEntry(SlotOf(root, SlotNumber(f)), Pad(Base(f), 11), First(p, f), |Content(p, f)|);
    }
  }

  /** Overwrite a file of the image from its start, and read it: the new bytes. */
  method LookupWriteRead(d: Driver, ghost p: Payload, ghost f: File, name: seq<byte>, buf: seq<byte>, depth: nat)
    returns (w: Result<nat>, r: Result<seq<byte>>)
    requires Booted(p, d) && ShortName(name) == Pad(Base(f), 11) && buf != [] && |buf| < 0x1_0000_0000
    modifies d
    ensures d.Valid()
    ensures w.Ok? ==> w == Ok(|buf|) && r == Ok(buf)
  {
    hide OnDisk, FatIs, ShortName, Known, TableOk, Scan, Pad, Flatten, ClusterChain, Internable, ClusterData, FirstCluster, FileSize;
    RootScan(p, d.disk, d.g, f);
    ghost var t := d.State();
    TableKeys(t);
    RootEntry(p, d.disk, d.g, f);
    FileInternable(p, t, f);
    ChainIs(p, d.fat, f);
    var id := d.Lookup(1, name);
    FoundInode(p, t, d.State(), id.value, f, d.disk, d.g);
    FileFlat(p, d.disk, d.g, f);
    BootedApart(p, d.State(), d.disk, d.g, depth);
    w, r := d.WriteThenRead(id.value, 0, buf, depth);
  }

  /** Any file, looked up under any spelling and read at any offset, in any order and any number of times:
      the bytes that the build script was given. */
  method LookupAndRead(d: Driver, ghost p: Payload, ghost f: File, name: seq<byte>, offset: nat, len: nat)
    returns (r: Result<seq<byte>>)
    requires Booted(p, d) && ShortName(name) == Pad(Base(f), 11)
    modifies d
    ensures Booted(p, d) && d.disk == old(d.disk) && d.fat == old(d.fat)
    ensures var c := Content(p, f);
            r == Ok(if offset < Min(|c|, offset + len) then c[offset..Min(|c|, offset + len)] else [])
  {
    hide OnDisk, FatIs, ShortName, Known, TableOk, Scan, Pad, Readable, Flatten, FileSlice, ClusterChain, Internable, ClusterData, FirstCluster, FileSize;
    RootScan(p, d.disk, d.g, f);
    ghost var t := d.State();
    TableKeys(t);
    RootEntry(p, d.disk, d.g, f);
    FileInternable(p, t, f);
    ChainIs(p, d.fat, f);
    var id := d.Lookup(1, name);
    FoundInode(p, t, d.State(), id.value, f, d.disk, d.g);
    FileFlat(p, d.disk, d.g, f);
    r := d.Read(id.value, offset, len);
    SliceOf(p, d.disk, d.g, f, offset, Min(|Content(p, f)|, offset + len));
  }

  /** Build, boot and read: every file of the image comes back as it was put in. */
  method BuildBootRead(boot: seq<byte>, p: Payload, f: File, name: seq<byte>) returns (r: Result<seq<byte>>)
    requires |boot| >= 512 && |boot| / 512 < 0x1_0000_0000 && boot[510] == 0x55 && boot[511] == 0xAA
    requires |boot| % 512 == 0 && !IsFat32(boot, 3)
    requires Builds(p) && p.sysutils != [] && ShortName(name) == Pad(Base(f), 11)
    ensures r == Ok(Content(p, f))
  {
    hide PartitionOk, Builds, IsFat32, StartOf, ShortName, Pad, Booted, Content, Coherent;
    var part := MakePartition(p);
    var image := AppendPartition(boot, part.value);
    ghost var start := |boot| / 512;
    PartLen(p, part.value);
    assert Get(image.value, 512 * start, 512 * SECTORS) == image.value[512 * start..];
    var d := Mount(image.value, p, part.value, start);
    ghost var c := Content(p, f);
    assert c[0..|c|] == c && (|c| == 0 ==> c == []);
    r := LookupAndRead(d.value, p, f, name, 0, |Content(p, f)|);
  }

  lemma PartLen(p: Payload, part: seq<byte>)
    requires PartitionOk(p, part)
    ensures |part| == 512 * SECTORS
  {
    hide ParseBpb, RootOk, TableOf, DataBlock, DataSector;
  }
}
