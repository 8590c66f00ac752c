/** The FAT32 driver: cached table, inodes and disk, updated in place. */
module Fat32 {
  import opened Bytes
  import opened Disk
  import opened FatDir
  import opened FatFile
  import opened FatLayout
  import opened FatScan
  import opened FatSearch
  import opened FatState
  import opened FatTable
  import opened FatTree
  import opened Wrappers

  class Driver {
    const g: Geometry
    var disk: seq<byte>
    var fat: Fat
    var inodes: map<nat, Inode>
    var nextInode: nat

    /** The cluster chain behind every inode. */
    ghost var chains: map<nat, seq<nat>>
    ghost var slots: map<nat, Slot>

    ghost function State(): Table
      reads this
    {
      Table(fat, inodes, chains, slots)
    }

    ghost predicate Valid()
      reads this
    {
      && GeoOk(g) && Fits(disk, g) && 4 * |fat| == FatLen(g)
      && TableOk(State())
      && (forall id | id in inodes :: id < nextInode)
    }

    /** Mount: load the first FAT copy and intern the root directory, whose chain is `ch`. */
    constructor (geo: Geometry, image: seq<byte>, ghost ch: seq<nat>)
      requires geo.spc > 0 && geo.fatSz > 0 && FatAt(geo, 0) + FatLen(geo) <= |image|
      ensures g == geo && disk == image
      ensures fat == LoadFat(image, geo)
      ensures nextInode == 2 && inodes == map[1 := Inode(geo.root, 0, true)] && chains == map[1 := ch]
      ensures GeoOk(geo) && Fits(image, geo) && |fat| <= GUARD && Linked(fat, ch) && Distinct(ch) && HeadOk(fat, geo.root, ch) ==> Valid()
    {
      hide TableOk, Linked, LoadFat, FatAt, FatLen, Words;
      g, disk := geo, image;
      fat := LoadFat(image, geo);
      nextInode, inodes := 2, map[1 := Inode(geo.root, 0, true)];
      chains, slots := map[1 := ch], AddSlots(map[], 1, ch);
      new;
      if |fat| <= GUARD && Linked(fat, ch) && Distinct(ch) && HeadOk(fat, geo.root, ch) {
        FirstInode(fat, 1, Inode(geo.root, 0, true), ch);
      }
    }

    method WriteCluster(c: nat, b: seq<byte>) returns (ok: bool)
      requires Fits(disk, g) && |b| == ClusterLen(g)
      modifies this`disk
      ensures ok <==> ClusterData(old(disk), g, c).Some?
      ensures disk == if ok then SetCluster(old(disk), g, c, b) else old(disk)
      ensures SameFats(old(disk), disk, g) && SameClusters(old(disk), disk, g, {c}) && Fits(disk, g)
    {
      SameRefl(disk, g);
      if ClusterData(disk, g, c).None? {
        return false;
      }
      SetClusterFrame(disk, g, c, b);
      disk := SetCluster(disk, g, c, b);
      return true;
    }

    /** Write the cached table over every FAT copy. */
    method FlushFat()
      requires GeoOk(g) && Fits(disk, g) && 4 * |fat| == FatLen(g) && Words(fat)
      modifies this`disk
      ensures Coherent(disk, g, fat) && SameClusters(old(disk), disk, g, {}) && Fits(disk, g)
    {
      var table := EncodeFat(fat);
      hide EncodeFat, Fits, ClusterData;
      var k := 0;
      SameRefl(disk, g);
      assert Flushed(disk, g, table, 0);
      while k < g.numFats
        invariant 0 <= k <= g.numFats
        invariant Flushed(disk, g, table, k) && SameClusters(old(disk), disk, g, {})
      {
        FlushOne(disk, g, table, k);
        ghost var before := disk;
        disk := Put(disk, FatAt(g, k), table);
        SameClustersTrans(old(disk), before, disk, g, {}, {});
        k := k + 1;
      }
      FlushedCoherent(disk, g, fat);
    }

    /** The first free cluster, marked as a chain of its own. */
    method AllocCluster() returns (r: Option<nat>)
      modifies this`fat
      ensures r.None? ==> fat == old(fat) && forall i | 2 <= i < |fat| :: fat[i] != FREE
      ensures r.Some? ==>
                && IsCluster(old(fat), r.value) && old(fat)[r.value] == FREE
                && (forall i | 2 <= i < r.value :: old(fat)[i] != FREE)
                && fat == old(fat)[r.value := EOC]
    {
      var i := 2;
      while i < |fat|
        invariant 2 <= i && fat == old(fat)
        invariant forall j | 2 <= j < i && j < |fat| :: fat[j] != FREE
      {
        if fat[i] == FREE {
          fat := fat[i := EOC];
          return Some(i);
        }
        i := i + 1;
      }
      return None;
    }

    /** The allocation loop of `write`: grow the chain of `id` to `needed` clusters. */
    method ExtendChain(id: nat, needed: nat) returns (r: Option<seq<nat>>)
      requires Valid() && id in inodes
      modifies this`fat, this`inodes, this`chains, this`slots
      ensures Valid() && Extended(old(State()), State(), id)
      ensures id in inodes && id in chains && inodes[id].size == old(inodes[id].size)
      ensures r.Some? ==>
                && r.value == chains[id] && |r.value| >= needed
                && |r.value| == if |old(chains[id])| < needed then needed else |old(chains[id])|
      ensures |old(chains[id])| >= needed ==> r == Some(old(chains[id])) && chains[id] == old(chains[id])
      ensures r.None? ==> FreeClusters(fat) == {} && |old(chains[id])| < needed
    {
      hide TableOk, Extended, LinkTable, ClusterChain, FreeClusters;
      ghost var t0 := State();
      ChainOf(t0, id);
      ExtendedRefl(t0, id);
      var chain := ClusterChain(fat, inodes[id].first);
      while |chain| < needed
        invariant Valid() && Extended(t0, State(), id) && inodes.Keys == old(inodes.Keys)
        invariant id in inodes && id in chains && chain == chains[id] && |chain| >= |old(chains[id])|
        invariant inodes[id].size == old(inodes[id].size)
        invariant |chain| <= needed || chain == old(chains[id])
        invariant |old(chains[id])| >= needed ==> chain == old(chains[id])
        decreases needed - |chain|
      {
        ghost var t1 := State();
        ChainOf(t1, id);
        var c := AllocCluster();
        if c.None? {
          NoFree(fat);
          return None;
        }
        LinkTableOk(t1, id, c.value);
        ExtendedLink(t0, t1, id, c.value);
        if chain == [] {
          inodes := inodes[id := inodes[id].(first := c.value)];
        } else {
          fat := fat[chain[|chain| - 1] := c.value];
        }
        chains, slots := chains[id := chain + [c.value]], slots[c.value := Slot(id, |chain|)];
        LinkTableIs(t1, State(), id, c.value);
        chain := chain + [c.value];
      }
      return Some(chain);
    }

    /** `read`: up to `len` bytes at `offset`, limited by the file size and the chain. */
    method Read(id: nat, offset: nat, len: nat) returns (r: Result<seq<byte>>)
      requires Valid()
      ensures id !in inodes ==> r.Err?
      ensures id in inodes && (inodes[id].isDir || len == 0 || offset >= inodes[id].size) ==> r == Ok([])
      ensures id in inodes && !inodes[id].isDir && len > 0 && offset < inodes[id].size && Readable(disk, g, chains[id]) ==>
                r == Ok(FileSlice(disk, g, chains[id], offset, Min(inodes[id].size, offset + len)))
    {
      if id !in inodes {
        return Err("inode not found");
      }
      if inodes[id].isDir || len == 0 || offset >= inodes[id].size {
        return Ok([]);
      }
      hide TableOk, ClusterChain, ClusterData, FileSlice;
      var chain := ClusterChain(fat, inodes[id].first);
      ChainOf(State(), id);
      var out := ReadData(chain, offset, Min(inodes[id].size, offset + len));
      if out.None? {
        return Err("ata read failed");
      }
      return Ok(out.value);
    }

    /** The data loop of `read`. */
    method ReadData(chain: seq<nat>, offset: nat, end: nat) returns (r: Option<seq<byte>>)
      requires GeoOk(g)
      ensures Readable(disk, g, chain) ==> r == Some(FileSlice(disk, g, chain, offset, end))
    {
      hide ClusterData, ReadLoop, FileSlice;
      var out, pos, b := [], offset, ClusterLen(g);
      ghost var good := Readable(disk, g, chain);
      ghost var blocks := if good then ChainBlocks(disk, g, chain) else [];
      while pos < end
        invariant offset <= pos
        invariant good ==> out + ReadLoop(blocks, b, pos, end) == ReadLoop(blocks, b, offset, end)
        decreases end - pos
      {
        var i, j := Index(pos, b), Within(pos, b);
        if i >= |chain| {
          break;
        }
        var scratch := ClusterData(disk, g, chain[i]);
        if scratch.None? {
          return None;
        }
        var take := Min(end - pos, b - j);
        if good {
          ReadStep(blocks, b, pos, end);
        }
        out := out + Get(scratch.value, j, take);
        pos := pos + take;
      }
      if good {
        ReadEnds(blocks, b, pos, end);
        assert out + [] == out;
        ReadIsFileSlice(disk, g, chain, offset, end);
      }
      return Some(out);
    }

    /** The data loop of `write`: read, modify and write one cluster after the other. */
    method WriteData(chain: seq<nat>, offset: nat, buf: seq<byte>) returns (r: Option<nat>)
      requires GeoOk(g) && Fits(disk, g) && Distinct(chain)
      modifies this`disk
      ensures SameFats(old(disk), disk, g) && SameClusters(old(disk), disk, g, Elems(chain)) && Fits(disk, g)
      ensures Readable(old(disk), g, chain) ==>
                && r.Some? && Readable(disk, g, chain)
                && ChainBlocks(disk, g, chain)
                   == WriteLoop(ChainBlocks(old(disk), g, chain), ClusterLen(g), offset, buf, offset)
                && (|buf| <= |chain| * ClusterLen(g) ==> r.value == |buf|)
      ensures r.Some? && buf != [] && GoodWrite(ClusterLen(g), offset, |buf|) ==>
                Reached(old(disk), g, chain, offset + |buf|)
    {
      hide ClusterData, WriteLoop, SetCluster, Fits, GoodWrite, Reached;
      var pos, written, b := offset, 0, ClusterLen(g);
      var end := offset + |buf|;
      ghost var good := Readable(disk, g, chain);
      ghost var goal := if good then WriteLoop(ChainBlocks(disk, g, chain), b, offset, buf, offset) else [];
      SameRefl(disk, g);
      SameWeaken(disk, disk, g, {}, Elems(chain));
      while pos < end
        invariant offset <= pos <= end && written == pos - offset && Fits(disk, g)
        invariant SameFats(old(disk), disk, g) && SameClusters(old(disk), disk, g, Elems(chain))
        invariant good ==> Readable(disk, g, chain) && WriteLoop(ChainBlocks(disk, g, chain), b, offset, buf, pos) == goal
        invariant GoodWrite(b, offset, |buf|) && pos > offset ==> Reached(old(disk), g, chain, pos)
        decreases end - pos
      {
        var i, j := Index(pos - offset, b), Within(pos, b);
        if i >= |chain| {
          if GoodWrite(b, offset, |buf|) {
            ReachedAll(old(disk), g, chain, offset, |buf|, pos);
          }
          break;
        }
        var scratch := ClusterData(disk, g, chain[i]);
        if scratch.None? {
          return None;
        }
        SameSome(old(disk), disk, g, Elems(chain));
        if GoodWrite(b, offset, |buf|) {
          ReachedStep(old(disk), g, chain, offset, |buf|, pos, Min(end - pos, b - j));
        }
        var take := Min(end - pos, b - j);
        var block := Put(scratch.value, j, buf[written..written + take]);
        ghost var before := disk;
        if good {
          WriteLoopStep(ChainBlocks(disk, g, chain), b, offset, buf, pos);
          SetBlock(disk, g, chain, i, block);
        }
        var ok := WriteCluster(chain[i], block);
        if !ok {
          return None;
        }
        SameFatsTrans(old(disk), before, disk, g);
        SameWeaken(before, disk, g, {chain[i]}, Elems(chain));
        SameClustersTrans(old(disk), before, disk, g, Elems(chain), Elems(chain));
        assert Elems(chain) + Elems(chain) == Elems(chain);
        pos, written := pos + take, written + take;
      }
      if good {
        WriteLoopEnds(ChainBlocks(disk, g, chain), b, offset, buf, pos);
      }
      if |buf| <= |chain| * b && pos < end {
        DivBelow(pos - offset, |chain|, b);
      }
      return Some(written);
    }

    /** `update_size_recursive`: patch the size field of the first entry that starts at `target`.
        Directories are followed at most `depth` levels deep. */
    method UpdateSize(dirCluster: nat, target: nat, size: nat, depth: nat) returns (r: Result<bool>, ghost touched: set<nat>)
      requires GeoOk(g) && Fits(disk, g)
      modifies this`disk
      ensures Fits(disk, g) && SameFats(old(disk), disk, g) && SameClusters(old(disk), disk, g, touched) && |touched| <= 1
      ensures Patched(old(disk), disk, g, {}, target)
      ensures forall c | c in touched :: InTree(fat, old(disk), g, dirCluster, depth, c)
      ensures r != Ok(true) ==> disk == old(disk)
      ensures r.Ok? ==> SizePatched(fat, old(disk), disk, g, dirCluster, depth, target, size)
      ensures r.Ok? ==> (r.value <==> SizeEntry(fat, old(disk), g, dirCluster, depth, target).At?)
      ensures r.Err? ==> SizeEntry(fat, disk, g, dirCluster, depth, target).Unreadable? || Deeper(fat, disk, g, dirCluster, depth)
      decreases depth
    {
      hide ClusterData, SameFats, SameClusters, ClusterChain, Scan, Patched, TreeChain, TreeChains, SetCluster;
      touched := {};
      SameRefl(disk, g);
      PatchedSame(disk, disk, g, {}, target);
      var chain := ClusterChain(fat, dirCluster);
      SearchStep(fat, disk, g, dirCluster, depth, Starting(target));
      var hit := ScanDirectory(disk, g, chain, Starting(target));
      if hit.Unreadable? {
        return Err("ata read failed"), touched;
      }
      if hit.At? {
        var e := PatchSize(ClusterData(disk, g, hit.c).value, hit.i, size);
        PatchOne(ClusterData(disk, g, hit.c).value, e, hit.i, target, LeEncode(size, 4));
        PatchCluster(disk, g, hit.c, e, target);
        var ok := WriteCluster(hit.c, e);
        touched := {hit.c};
        return Ok(true), touched;
      }
      var subs := Subdirs(disk, g, chain);
      var k := 0;
      while k < |subs|
        invariant disk == old(disk)
        invariant SameFats(old(disk), disk, g) && SameClusters(old(disk), disk, g, {})
        invariant 0 <= k <= |subs|
        invariant depth > 0 ==>
                    SizeEntry(fat, disk, g, dirCluster, depth, target)
                    == Scan(disk, g, TreeChains(fat, disk, g, subs[k..], depth - 1), Starting(target))
      {
        if depth == 0 {
          return Err("directories nested too deep"), {};
        }
        assert subs[k] in subs;
        NextDirectory(fat, disk, g, subs[k..], depth - 1, Starting(target));
        assert subs[k..][1..] == subs[k + 1..];
        r, touched := UpdateSize(subs[k], target, size, depth - 1);
        if r != Ok(false) {
          return;
        }
        k := k + 1;
      }
      if depth > 0 {
        assert subs[k..] == [];
        NoDirectories(fat, disk, g, depth - 1, Starting(target));
      }
      return Ok(false), {};
    }

    /** The end of `write` and `truncate`: flush the table, then patch the directory entry. */
    method FlushAndRecord(first: nat, size: nat, depth: nat) returns (r: Result<bool>, ghost touched: set<nat>)
      requires GeoOk(g) && Fits(disk, g) && 4 * |fat| == FatLen(g) && Words(fat)
      modifies this`disk
      ensures Fits(disk, g) && Coherent(disk, g, fat) && SameClusters(old(disk), disk, g, touched) && |touched| <= 1
      ensures Patched(old(disk), disk, g, {}, first)
      ensures forall c | c in touched :: InTree(fat, old(disk), g, g.root, depth, c)
      ensures r.Ok? ==> SizeListed(fat, disk, g, depth, first, size % 0x1_0000_0000)
      ensures r.Err? ==> Unsearchable(fat, disk, g, depth, first)
    {
      hide Fits, Coherent, SameClusters, SameFats, Patched, InTree, SizeListed, SizePatched, SizeEntry, Deeper;
      FlushFat();
      ghost var disk1 := disk;
      PatchedSame(old(disk), disk1, g, {}, first);
      r, touched := UpdateSize(g.root, first, size, depth);
      forall c | c in touched
        ensures InTree(fat, old(disk), g, g.root, depth, c)
      {
        TreeKept(fat, fat, old(disk), disk1, g, g.root, depth, {}, first, c);
      }
      if r.Ok? {
        PatchedListed(fat, disk1, disk, g, depth, first, size);
      }
      PatchedThen(old(disk), disk1, disk, g, {}, first);
      SameClustersTrans(old(disk), disk1, disk, g, {}, touched);
      assert {} + touched == touched;
      CoherentKept(disk1, disk, g, fat);
    }

    /** The size of the inode in memory; it is a 32-bit word. */
    method GrowSize(id: nat, end: nat, ghost t0: Table)
      requires Valid() && id in inodes && Extended(t0, State(), id)
      modifies this`inodes
      ensures Valid() && Extended(t0, State(), id)
      ensures inodes == old(inodes)[id := old(inodes)[id].(size := if end > old(inodes)[id].size then end % 0x1_0000_0000
                        else old(inodes)[id].size)]
    {
      hide TableOk, Extended;
      ghost var t1 := State();
      if end > inodes[id].size {
        inodes := inodes[id := inodes[id].(size := end % 0x1_0000_0000)];
        SizeTableOk(t1, id, inodes[id].size);
        SizeExtended(t0, t1, id, inodes[id].size);
      }
    }

    /** The end of `write`: the size in memory, the table, the size on disk. */
    method Finish(id: nat, end: nat, depth: nat, ghost t0: Table, ghost disk0: seq<byte>) returns (r: Result<bool>, ghost touched: set<nat>)
      requires Valid() && id in inodes && id in chains && TableOk(t0) && Extended(t0, State(), id) && !t0.inodes[id].isDir
      requires SameClusters(disk0, disk, g, Elems(chains[id]))
      modifies this`disk, this`inodes
      ensures Valid() && Extended(t0, State(), id) && |touched| <= 1
      ensures id in inodes && inodes[id].size == if end > old(inodes)[id].size then end % 0x1_0000_0000 else old(inodes)[id].size
      ensures Coherent(disk, g, fat) && SameClusters(old(disk), disk, g, touched) && SameClusters(disk0, disk, g, Elems(chains[id]) + touched)
      ensures r.Ok? ==>
                && Written(t0, State(), disk0, disk, g, id, depth, touched)
                && SizeListed(fat, disk, g, depth, inodes[id].first, inodes[id].size % 0x1_0000_0000)
      ensures r.Err? ==>
                && Unsearchable(fat, disk, g, depth, inodes[id].first)
                && (DirsApart(t0, disk0, g, depth) ==> Unsearchable(t0.fat, disk0, g, depth, inodes[id].first))
    {
      hide TableOk, Extended, SameFats, SameClusters, Coherent, Fits, Elems, Patched, InTree, Written, SizeListed, Unsearchable, DirsApart;
      GrowSize(id, end, t0);
      TableWords(State());
      ghost var disk1 := disk;
      r, touched := FlushAndRecord(inodes[id].first, inodes[id].size, depth);
      SameClustersTrans(disk0, disk1, disk, g, Elems(chains[id]), touched);
      if r.Ok? {
        WrittenFrom(t0, State(), disk0, disk1, disk, g, id, depth, touched);
      } else if DirsApart(t0, disk0, g, depth) {
        GaveUp(t0, State(), disk0, disk1, disk, g, id, depth);
      }
    }

    /** `write`. Last, the size field of a directory entry is patched, in at most one cluster `touched`. As long as the
        directories are apart from the files that cluster is a directory's: no other file changes, and the directories
        stay apart. No entry's first cluster is ever rewritten, although the file's changes when its chain was empty. */
    method Write(id: nat, offset: nat, buf: seq<byte>, depth: nat) returns (r: Result<nat>, ghost touched: set<nat>)
      requires Valid()
      modifies this
      ensures Valid() && |touched| <= 1
      ensures r.Ok? ==> id in old(inodes) && !old(inodes)[id].isDir && id in inodes && id in chains && Coherent(disk, g, fat)
      ensures r.Ok? ==> Extended(old(State()), State(), id)
      ensures r.Ok? ==> inodes[id].size == if offset + |buf| > old(inodes[id].size) then (offset + |buf|) % 0x1_0000_0000 else old(inodes[id].size)
      ensures r.Ok? ==> SameClusters(old(disk), disk, g, Elems(chains[id]) + touched)
      ensures r.Ok? ==> Written(old(State()), State(), old(disk), disk, g, id, depth, touched)
      ensures r.Ok? ==> |chains[id]| >= Needed(offset + |buf|, ClusterLen(g))
      ensures r.Ok? ==> SizeListed(fat, disk, g, depth, inodes[id].first, inodes[id].size % 0x1_0000_0000)
      ensures id in old(inodes) && !old(inodes)[id].isDir ==>
                && Extended(old(State()), State(), id) && id in old(chains) && id in inodes && id in chains
                && (Needed(offset + |buf|, ClusterLen(g)) <= |old(chains)[id]| ==> chains[id] == old(chains)[id])
      ensures r.Err? && id in old(inodes) && !old(inodes)[id].isDir ==>
                || (FreeClusters(fat) == {} && |old(chains)[id]| < Needed(offset + |buf|, ClusterLen(g)))
                || !Readable(old(disk), g, chains[id])
                || (&& Unsearchable(fat, disk, g, depth, inodes[id].first)
                    && (DirsApart(old(State()), old(disk), g, depth) ==> Unsearchable(old(fat), old(disk), g, depth, inodes[id].first)))
      ensures r.Ok? && Readable(old(disk), g, chains[id]) && touched !! Elems(chains[id]) ==>
                && r.value == |buf| && offset + |buf| <= |chains[id]| * ClusterLen(g)
                && Readable(disk, g, chains[id])
                && ChainBlocks(disk, g, chains[id])
                   == WriteLoop(ChainBlocks(old(disk), g, chains[id]), ClusterLen(g), offset, buf, offset)
      ensures r.Ok? && buf != [] && GoodWrite(ClusterLen(g), offset, |buf|) && Readable(old(disk), g, old(chains[id])) ==>
                Readable(old(disk), g, chains[id])
    {
      hide TableOk, Extended, ClusterData, WriteLoop, SameFats, SameClusters, Coherent, Fits, Needed, Elems, Readable;
      hide GoodWrite, Reached, Patched, InTree, Written, SizeListed, Unsearchable, FreeClusters, DirsApart;
      touched := {};
      if id !in inodes {
        return Err("inode not found"), {};
      }
      if inodes[id].isDir {
        return Err("cannot write to directory"), {};
      }
      ghost var t0, disk0 := State(), disk;
      TableChains(t0, id);
      var b := ClusterLen(g);
      var needed := Needed(offset + |buf|, b);
      var chain := ExtendChain(id, needed);
      if chain.None? {
        return Err("out of clusters"), {};
      }
      ChainOf(State(), id);
      var written := WriteData(chain.value, offset, buf);
      if written.None? {
        return Err("ata write failed"), {};
      }
      ghost var disk1 := disk;
      var found;
      found, touched := Finish(id, offset + |buf|, depth, t0, disk0);
      if found.Err? {
        return Err(found.error), touched;
      }
      if Readable(disk0, g, chain.value) && touched !! Elems(chain.value) {
        KeptApart(disk1, disk, g, chain.value, touched);
        Covered(offset + |buf|, b, |chain.value|);
      }
      if buf != [] && GoodWrite(b, offset, |buf|) && Readable(disk0, g, t0.chains[id]) {
        PrefixOf(t0, State(), id);
        ReadableAfter(disk0, g, t0.chains[id], chain.value, offset + |buf|);
      }
      return Ok(written.value), touched;
    }

    /** Write, then read the same range. With a readable file, directories apart from the files, and a write that
        starts at 0 or stays in the first cluster, the bytes come back. */
    method WriteThenRead(id: nat, offset: nat, buf: seq<byte>, depth: nat) returns (w: Result<nat>, r: Result<seq<byte>>)
      requires Valid() && buf != [] && offset + |buf| < 0x1_0000_0000
      modifies this
      ensures Valid()
      ensures w.Ok? ==>
                && id in old(chains) && !old(inodes)[id].isDir
                && (DirsApart(old(State()), old(disk), g, depth) && Readable(old(disk), g, old(chains)[id])
                    && GoodWrite(ClusterLen(g), offset, |buf|)
                    ==> && w == Ok(|buf|) && r == Ok(buf)
                        && DirsApart(State(), disk, g, depth) && OthersSame(old(State()), old(disk), disk, g, id))
    {
      hide TableOk, Extended, ClusterData, WriteLoop, SameClusters, Coherent, FileSlice, GoodWrite, DirsApart, OthersSame, InTree, Elems;
      ghost var t, disk0 := State(), disk;
      ghost var touched;
      w, touched := Write(id, offset, buf, depth);
      if w.Err? {
        return w, Err(w.error);
      }
      KindKept(t, State(), id);
      r := Read(id, offset, |buf|);
      if DirsApart(t, disk0, g, depth) && Readable(disk0, g, t.chains[id]) && GoodWrite(ClusterLen(g), offset, |buf|) {
        WrittenSlice(disk0, disk, g, chains[id], offset, buf);
      }
    }

    /** Mark clusters free, one after the other. */
    method FreeAll(cs: seq<nat>)
      requires forall i | 0 <= i < |cs| :: cs[i] < |fat|
      modifies this`fat
      ensures fat == Clear(old(fat), cs)
    {
      var k := 0;
      while k < |cs|
        invariant 0 <= k <= |cs| && |fat| == |old(fat)|
        invariant Clear(fat, cs[k..]) == Clear(old(fat), cs)
      {
        assert cs[k..][1..] == cs[k + 1..];
        fat := fat[cs[k] := FREE];
        k := k + 1;
      }
    }

    /** Free all but the first `keep` clusters of a file; freeing all of them resets the first cluster. */
    method CutTo(id: nat, keep: nat)
      requires Valid() && id in inodes && id in chains && keep < |chains[id]|
      modifies this`fat, this`inodes, this`chains, this`slots
      ensures Valid()
      ensures forall i | 0 <= i < |old(chains[id])| :: old(chains[id])[i] < |old(fat)|
      ensures State() == CutTable(old(State()), id, keep)
    {
      hide TableOk, ClusterChain, CutTable, Cut, Clear;
      ghost var t := State();
      ChainOf(t, id);
      CutTableOk(t, id, keep);
      var chain := ClusterChain(fat, inodes[id].first);
      FreeAll(chain[keep..]);
      if keep == 0 {
        inodes := inodes[id := inodes[id].(first := 0)];
      } else {
        fat := fat[chain[keep - 1] := EOC];
      }
      chains, slots := chains[id := chain[..keep]], slots - Elems(chain[keep..]);
      CutTableIs(t, State(), id, keep);
    }

    /** `truncate`: shrink the chain if the new size needs fewer clusters; never grows it. */
    method Truncate(id: nat, size: nat, depth: nat) returns (r: Result<()>, ghost touched: set<nat>)
      requires Valid()
      modifies this
      ensures Valid() && |touched| <= 1
      ensures r.Ok? ==> id in old(inodes) && id in old(chains) && id in inodes && !inodes[id].isDir
      ensures r.Ok? ==> Coherent(disk, g, fat) && SameClusters(old(disk), disk, g, touched)
      ensures r.Ok? ==> Truncated(old(State()), State(), id, size % 0x1_0000_0000, Keep(size % 0x1_0000_0000, ClusterLen(g), |old(chains[id])|))
      ensures r.Ok? ==> Written(old(State()), State(), old(disk), disk, g, id, depth, touched)
      ensures r.Ok? ==> SizeListed(fat, disk, g, depth, inodes[id].first, inodes[id].size % 0x1_0000_0000)
      ensures r.Err? ==>
                || id !in old(inodes) || old(inodes)[id].isDir
                || (id in inodes && Unsearchable(fat, disk, g, depth, inodes[id].first))
    {
      hide TableOk, ClusterChain, CutTable, Coherent, SameClusters, SameFats, Truncated, Keep, Written, Patched, InTree, Changes, FirstKeptIff;
      hide SizeListed, Unsearchable;
      touched := {};
      if id !in inodes {
        return Err("inode not found"), {};
      }
      if inodes[id].isDir {
        return Err("cannot truncate directory"), {};
      }
      ghost var t := State();
      ghost var disk0 := disk;
      ChainOf(t, id);
      var newSize := size % 0x1_0000_0000;
      var b := ClusterLen(g);
      var n := |ClusterChain(fat, inodes[id].first)|;
      var keep := Keep(newSize, b, n);
      if keep < n {
        CutTo(id, keep);
      }
      TruncatedCut(t, State(), id, keep);
      CutChanges(t, State(), id, keep);
      CutFirst(t, State(), id, keep);
      ghost var t1 := State();
      inodes := inodes[id := inodes[id].(size := newSize)];
      SizeTableOk(t1, id, newSize);
      TruncatedSize(t, t1, id, keep, newSize);
      TableWords(State());
      var found;
      found, touched := FlushAndRecord(inodes[id].first, inodes[id].size, depth);
      TruncatedIno(t, State(), id, newSize, keep);
      if found.Err? {
        return Err(found.error), touched;
      }
      TruncatedOnDisk(t, t1, State(), disk0, disk, g, id, depth, touched);
      return Ok(()), touched;
    }

    /** `write_dir_entry`: the first free slot of the directory, or slot 0 of a new cluster. */
    method WriteDirEntry(id: nat, e: seq<byte>) returns (r: Result<()>, ghost added: nat)
      requires Valid() && id in inodes && IsSlot(e)
      modifies this`disk, this`fat, this`chains, this`slots
      ensures Valid() && id in chains
      ensures SameClusters(old(disk), disk, g, Elems(chains[id]))
      ensures r.Ok? ==> Extended(old(State()), State(), id) && EntryPlaced(disk, g, chains[id], e)
      ensures r.Ok? ==> id in old(chains) && OnlyAdded(old(disk), disk, g, old(chains)[id], chains[id], e)
      ensures r.Ok? ==> GrewBy(old(State()), State(), id, added)
      ensures r.Err? ==> chains[id] == [] || FreeClusters(fat) == {} || !Readable(old(disk), g, chains[id])
    {
      hide TableOk, ClusterChain, ClusterData, SameClusters, SameFats, Extended, EntryPlaced, OnlyAdded, Scan, Coherent, GrewBy;
      ghost var t, disk0 := State(), disk;
      ChainOf(t, id);
      ExtendedRefl(t, id);
      SameRefl(disk, g);
      SameWeaken(disk, disk, g, {}, Elems(chains[id]));
      var chain := ClusterChain(fat, inodes[id].first);
      var hit := ScanDirectory(disk, g, chain, FreeSlot);
      if hit.Unreadable? {
        if Readable(disk, g, chain) {
          ScanReadable(disk, g, chain, FreeSlot);
        }
        return Err("ata read failed"), 0;
      }
      if hit.At? {
        var b := Put(ClusterData(disk, g, hit.c).value, SLOT * hit.i, e);
        PlacedInSlot(disk, g, chain, hit.c, hit.i, e);
        AddedInSlot(disk, g, chain, hit.c, hit.i, e);
        var ok := WriteCluster(hit.c, b);
        SameWeaken(disk0, disk, g, {hit.c}, Elems(chain));
        GrewNone(t, id);
        return Ok(()), 0;
      }
      r, added := ExtendDirectory(id, chain, e);
    }

    /** The second half of `write_dir_entry`: link a new cluster, clear it and put the entry at its start. */
    method ExtendDirectory(id: nat, chain: seq<nat>, e: seq<byte>) returns (r: Result<()>, ghost added: nat)
      requires Valid() && id in inodes && IsSlot(e) && id in chains && chain == chains[id]
      modifies this`disk, this`fat, this`chains, this`slots
      ensures Valid() && id in chains
      ensures SameClusters(old(disk), disk, g, Elems(chains[id]))
      ensures r.Ok? ==> Extended(old(State()), State(), id) && EntryPlaced(disk, g, chains[id], e)
      ensures r.Ok? ==> id in old(chains) && OnlyAdded(old(disk), disk, g, old(chains)[id], chains[id], e)
      ensures r.Ok? ==> GrewBy(old(State()), State(), id, added)
      ensures r.Err? ==> chains[id] == [] || FreeClusters(fat) == {} || !Readable(old(disk), g, chains[id])
    {
      hide TableOk, ClusterChain, ClusterData, SameClusters, SameFats, Extended, EntryPlaced, OnlyAdded, Coherent, LinkTable, SetCluster, Zeros, GrewBy;
      ghost var t, disk0 := State(), disk;
      ChainOf(t, id);
      ExtendedRefl(t, id);
      SameRefl(disk, g);
      SameWeaken(disk, disk, g, {}, Elems(chains[id]));
      var c := AllocCluster();
      if c.None? {
        NoFree(fat);
        return Err("out of clusters"), 0;
      }
      AllocTableOk(t, c.value);
      if chain == [] {
        return Err("empty directory chain"), 0;
      }
      LinkTableOk(t, id, c.value);
      ExtendedLink(t, t, id, c.value);
      GrewOne(t, id, c.value);
      fat := fat[chain[|chain| - 1] := c.value];
      chains, slots := chains[id := chain + [c.value]], slots[c.value := Slot(id, |chain|)];
      LinkTableIs(t, State(), id, c.value);
      TableWords(State());
      SameWeaken(disk, disk, g, {}, Elems(chains[id]));
      var b := e + Zeros(ClusterLen(g) - SLOT);
      var ok := WriteCluster(c.value, b);
      if !ok {
        assert (chain + [c.value])[|chain|] == c.value;
        return Err("ata write failed"), 0;
      }
      PlacedInNew(disk0, g, chain + [c.value], |chain|, e);
      FreeNotInChain(t, id, c.value);
      AddedInNew(disk0, g, chain, c.value, e);
      ghost var disk1 := disk;
      FlushFat();
      SameClustersTrans(disk0, disk1, disk, g, {c.value}, {});
      SameWeaken(disk0, disk, g, {c.value} + {}, Elems(chains[id]));
      PlacedKept(disk1, disk, g, chains[id], e);
      AddedKept(disk0, disk1, disk, g, chain, chains[id], e);
      return Ok(()), c.value;
    }

    /** `remove_dir_entry`: mark the entry's first byte; the scan gives up at the end-of-directory mark. */
    method RemoveDirEntry(chain: seq<nat>, short: seq<byte>) returns (r: Result<()>)
      requires GeoOk(g) && Fits(disk, g)
      modifies this`disk
      ensures Fits(disk, g) && SameFats(old(disk), disk, g)
      ensures r.Err? ==> disk == old(disk)
      ensures r.Ok? ==> Scan(old(disk), g, chain, Removable(short)).At? && EntryRemoved(old(disk), disk, g, chain, short)
    {
      hide ClusterData, SameClusters, SameFats, Scan, EntryRemoved;
      SameRefl(disk, g);
      var hit := ScanDirectory(disk, g, chain, Removable(short));
      if hit.Unreadable? {
        return Err("ata read failed");
      }
      if hit.Missing? || ClusterData(disk, g, hit.c).value[SLOT * hit.i] == 0x00 {
        return Err("file not found");
      }
      RemovedHere(disk, g, chain, hit.c, hit.i, short);
      var ok := WriteCluster(hit.c, Put(ClusterData(disk, g, hit.c).value, SLOT * hit.i, [0xE5]));
      return Ok(());
    }

    /** The search of `intern_inode`. */
    method FindInode(first: nat, isDir: bool) returns (r: Option<nat>)
      requires Valid()
      ensures r.None? ==> !HasInode(inodes, first, isDir)
      ensures r.Some? ==> r.value in inodes && Matches(inodes[r.value], first, isDir)
      ensures r.Some? ==> forall j | j in inodes && Matches(inodes[j], first, isDir) :: r.value <= j
    {
      hide TableOk;
      var i := 0;
      while i < nextInode
        invariant 0 <= i <= nextInode
        invariant forall j | 0 <= j < i && j in inodes :: !Matches(inodes[j], first, isDir)
      {
        if i in inodes && Matches(inodes[i], first, isDir) {
          return Some(i);
        }
        i := i + 1;
      }
      return None;
    }

    /** `intern_inode`: the lowest inode with this first cluster and kind, or a new one for the chain that starts there.
        The table stays sound exactly when there is such an inode, or the chain is a proper one and nobody's. */
    method Intern(first: nat, size: nat, isDir: bool) returns (id: nat)
      requires Valid()
      modifies this`inodes, this`nextInode, this`chains, this`slots
      ensures Interned(old(State()), State(), id, Inode(first, size, isDir), ClusterChain(fat, first))
      ensures forall j | j in inodes && Matches(inodes[j], first, isDir) :: id <= j
      ensures Valid() <==> Internable(old(State()), first, isDir)
    {
      hide TableOk, Adoptable, AddSlots, ClusterChain;
      var known := FindInode(first, isDir);
      if known.Some? {
        TableChains(State(), known.value);
        return known.value;
      }
      id := nextInode;
      ghost var ch := ClusterChain(fat, first);
      AdoptTableIff(State(), id, Inode(first, size, isDir));
      TableKeys(State());
      ghost var t := AdoptTable(State(), id, Inode(first, size, isDir), ch);
      assert Completes(State(), id, Inode(first, size, isDir), t.chains, t.slots) <==> TableOk(t);
      nextInode := nextInode + 1;
      inodes := inodes[id := Inode(first, size, isDir)];
      chains, slots := t.chains, t.slots;
    }

    /** `lookup`: find the entry by its short name and intern its inode. An entry may name a cluster that is free or
        belongs to another file; then the new inode is not sound. */
    method Lookup(dir: nat, name: seq<byte>) returns (r: Result<nat>)
      requires Valid()
      modifies this`inodes, this`nextInode, this`chains, this`slots
      ensures dir !in old(inodes) || !old(inodes)[dir].isDir ==> r.Err?
      ensures r.Err? ==> Valid() && State() == old(State())
      ensures dir in old(inodes) && old(inodes)[dir].isDir ==>
                && dir in old(chains)
                && var hit := Scan(disk, g, old(chains)[dir], Named(ShortName(name)));
                (r.Ok? <==> hit.At?)
      ensures r.Ok? ==>
                && dir in old(chains)
                && var hit := Scan(disk, g, old(chains)[dir], Named(ShortName(name)));
                && hit.At?
                && var ino := EntryInode(SlotOf(ClusterData(disk, g, hit.c).value, hit.i));
                && Interned(old(State()), State(), r.value, ino, ClusterChain(fat, ino.first))
                && (Valid() <==> Internable(old(State()), ino.first, ino.isDir))
    {
      hide TableOk, ClusterChain, ClusterData, Scan, ShortName, Adoptable, HasInode, FirstCluster, FileSize, IsDir, Interned, Internable;
      if dir !in inodes {
        return Err("inode not found");
      }
      TableChains(State(), dir);
      if !inodes[dir].isDir {
        return Err("not a directory");
      }
      ChainOf(State(), dir);
      var chain := ClusterChain(fat, inodes[dir].first);
      var hit := ScanDirectory(disk, g, chain, Named(ShortName(name)));
      if !hit.At? {
        return Err("file not found");
      }
      var e := SlotOf(ClusterData(disk, g, hit.c).value, hit.i);
      var id := Intern(FirstCluster(e), FileSize(e), IsDir(e));
      return Ok(id);
    }

    /** `create`: a directory entry without clusters. All files without clusters share one inode. */
    method Create(dir: nat, name: seq<byte>) returns (r: Result<nat>)
      requires Valid()
      modifies this
      ensures Valid()
      ensures r.Ok? ==>
                && dir in old(inodes) && old(inodes)[dir].isDir && dir in old(chains) && dir in chains
                && Coherent(disk, g, fat) && SameClusters(old(disk), disk, g, Elems(chains[dir]))
                && EntryPlaced(disk, g, chains[dir], Pack(ShortName(name), 0x20, 0, 0))
                && OnlyAdded(old(disk), disk, g, old(chains)[dir], chains[dir], Pack(ShortName(name), 0x20, 0, 0))
                && !Scan(old(disk), g, old(chains)[dir], Named(ShortName(name))).At?
                && r.value in inodes && inodes[r.value].first == 0 && !inodes[r.value].isDir
                && (r.value in old(inodes) <==> HasInode(old(inodes), 0, false))
                && (forall j | j in inodes && Matches(inodes[j], 0, false) :: r.value <= j)
                && (forall j | j in old(inodes) :: j in inodes && inodes[j] == old(inodes)[j])
                && (forall j | j in old(chains) && j != dir :: j in chains && chains[j] == old(chains)[j])
                && StaysApart(old(State()), State(), old(disk), disk, g)
      ensures r.Err? ==>
                || dir !in old(inodes) || !old(inodes)[dir].isDir || FreeClusters(fat) == {}
                || (dir in old(chains) && Scan(old(disk), g, old(chains)[dir], Named(ShortName(name))).At?)
                || (dir in chains && (chains[dir] == [] || !Readable(old(disk), g, chains[dir])))
    {
      hide TableOk, ClusterChain, ClusterData, Scan, ShortName, Adoptable, Pack, SameClusters, Coherent, EntryPlaced, OnlyAdded, HasInode;
      hide GrewBy, StaysApart, FreeClusters, Readable;
      if dir !in inodes {
        return Err("inode not found");
      }
      TableChains(State(), dir);
      if !inodes[dir].isDir {
        return Err("not a directory");
      }
      ghost var t, disk0, chain0 := State(), disk, chains[dir];
      ChainOf(State(), dir);
      var short := ShortName(name);
      var hit := ScanDirectory(disk, g, ClusterChain(fat, inodes[dir].first), Named(short));
      if hit.At? {
        return Err("file already exists");
      }
      var w;
      ghost var added;
      w, added := WriteDirEntry(dir, Pack(short, 0x20, 0, 0));
      ghost var t1 := State();
      if w.Err? {
        return Err(w.error);
      }
      ghost var disk1 := disk;
      TableWords(State());
      FlushFat();
      PlacedKept(disk1, disk, g, chains[dir], Pack(short, 0x20, 0, 0));
      AddedKept(disk0, disk1, disk, g, chain0, chains[dir], Pack(short, 0x20, 0, 0));
      SameClustersTrans(disk0, disk1, disk, g, Elems(chains[dir]), {});
      assert Elems(chains[dir]) + {} == Elems(chains[dir]);
      EmptyInternable(State());
      hide Internable;
      var id := Intern(0, 0, false);
      CreateApart(t, t1, State(), disk0, disk, g, dir, id, added, short);
      return Ok(id);
    }

    /** Two files created one after the other are one inode, whatever their names and directories. */
    method CreateTwice(dir: nat, name: seq<byte>, dir': nat, name': seq<byte>) returns (r: Result<nat>, r': Result<nat>)
      requires Valid()
      modifies this
      ensures Valid() && (r.Ok? && r'.Ok? ==> r' == r)
    {
      hide TableOk, ClusterData, Scan, ShortName, Pack, SameClusters, Coherent, EntryPlaced, OnlyAdded, Elems;
      r := Create(dir, name);
      ghost var inodes1 := inodes;
      r' := Create(dir', name');
      if r.Ok? && r'.Ok? {
        assert Matches(inodes1[r.value], 0, false) && inodes[r.value] == inodes1[r.value];
        assert r'.value in inodes1;
        assert Matches(inodes1[r'.value], 0, false);
      }
    }

    /** Create a file, write to it, open it again by name. The entry still names no cluster, so the name leads to
        another inode, which is empty: what was written is not found. */
    method CreateWriteReopen(dir: nat, name: seq<byte>, buf: seq<byte>, len: nat, depth: nat)
      returns (c: Result<nat>, w: Result<nat>, reopened: Result<nat>, back: Result<seq<byte>>)
      requires Valid() && buf != [] && ShortName(name)[0] != 0x00 && ShortName(name)[0] != 0xE5
      requires dir in inodes && dir in chains ==> Readable(disk, g, chains[dir])
      modifies this
      ensures Valid()
      ensures c.Ok? && w.Ok? ==> reopened.Ok? && reopened.value != c.value && back == Ok([])
    {
      hide TableOk, ClusterData, Scan, ShortName, Pack, SameClusters, Coherent, EntryPlaced, OnlyAdded, Elems, Readable, Hit;
      hide HasInode, Extended, Written, FirstCluster, FileSize, IsDir, ClusterChain, Internable, WriteLoop, FileSlice, Needed, GoodWrite;
      w, reopened, back := Err(""), Err(""), Err("");
      ghost var disk0 := disk;
      ghost var chain0 := if dir in chains then chains[dir] else [];
      c := Create(dir, name);
      if c.Err? {
        return;
      }
      ghost var t1, disk1 := State(), disk;
      ghost var e := Pack(ShortName(name), 0x20, 0, 0);
      SameLen(disk0, disk1, g, Elems(chains[dir]));
      PackedEmpty(ShortName(name));
      NewEntryFound(disk0, disk1, g, chain0, chains[dir], ShortName(name));
      ghost var touched;
      w, touched := Write(c.value, 0, buf, depth);
      if w.Err? {
        return;
      }
      ghost var t2 := State();
      GotCluster(t2, c.value, |buf|, ClusterLen(g));
      EntryStays(t1, t2, disk1, disk, g, dir, c.value, depth, touched, ShortName(name), e);
      EmptyInternable(t2);
      KindKept2(t1, t2, c.value, dir);
      reopened := Lookup(dir, name);
      ReopenedOther(t2, State(), reopened.value, c.value, ClusterChain(fat, 0));
      back := Read(reopened.value, 0, len);
      NothingToRead(disk, g, chains[reopened.value], 0, Min(inodes[reopened.value].size, len));
    }

    /** Truncate a file to nothing, then look it up: its entry names a cluster that is free now, and the new inode for
        it is not sound. */
    method TruncateThenLookup(dir: nat, name: seq<byte>, id: nat, depth: nat) returns (t: Result<()>, r: Result<nat>)
      requires Valid() && dir in inodes && inodes[dir].isDir && dir in chains
      requires var hit := Scan(disk, g, chains[dir], Named(ShortName(name)));
               hit.At? && OwnsEntry(State(), id, SlotOf(ClusterData(disk, g, hit.c).value, hit.i))
      modifies this
      ensures t.Ok? ==> r.Ok? && !Valid()
    {
      hide TableOk, ClusterData, Scan, ShortName, SameClusters, Coherent, Elems, Hit, OwnsEntry;
      hide HasInode, Written, Truncated, FirstCluster, FileSize, IsDir, ClusterChain, Internable, Keep;
      r := Err("");
      ghost var t0, disk0 := State(), disk;
      ghost var hit := Scan(disk, g, chains[dir], Named(ShortName(name)));
      ghost var e := SlotOf(ClusterData(disk, g, hit.c).value, hit.i);
      ghost var touched;
      t, touched := Truncate(id, 0, depth);
      if t.Err? {
        return;
      }
      TruncatedIno(t0, State(), id, 0, Keep(0, ClusterLen(g), |t0.chains[id]|));
      TruncatedAway(t0, State(), disk0, disk, g, dir, id, depth, touched, ShortName(name), ClusterLen(g));
      r := Lookup(dir, name);
    }

    /** The first cluster of a new directory. */
    method WriteDots(c: nat, parent: nat) returns (ok: bool)
      requires GeoOk(g) && Fits(disk, g)
      modifies this`disk
      ensures Fits(disk, g) && SameClusters(old(disk), disk, g, {c}) && SameFats(old(disk), disk, g)
      ensures ok ==> DotEntries(disk, g, c, parent) && ListsLess(old(disk), disk, g, c) && (forall d: nat :: !Lists(disk, g, c, d))
    {
      hide Pack, Pad, ClusterData, SetCluster, SameClusters, SameFats, DotEntries, ListsLess, Lists, Fits;
      ghost var disk0 := disk;
      var dots := Pack(Pad([0x2E], 11), 0x10, c, 0) + Pack(Pad([0x2E, 0x2E], 11), 0x10, parent, 0);
      ok := WriteCluster(c, dots + Zeros(ClusterLen(g) - |dots|));
      if ok {
        DotsWritten(disk0, g, c, parent);
        DotsListNothing(disk0, g, c, parent);
      }
    }

    /** `mkdir`: a new cluster with the two dot entries, then the entry in the parent. */
    method Mkdir(dir: nat, name: seq<byte>) returns (r: Result<nat>)
      requires Valid()
      modifies this
      ensures Valid()
      ensures r.Ok? ==>
                && dir in old(inodes) && old(inodes)[dir].isDir && dir in old(chains) && dir in chains
                && Coherent(disk, g, fat)
                && r.value !in old(inodes) && r.value in inodes && r.value in chains && inodes[r.value].isDir
                && |chains[r.value]| == 1 && old(fat)[chains[r.value][0]] == FREE
                && EntryPlaced(disk, g, chains[dir], Pack(ShortName(name), 0x10, chains[r.value][0], 0))
                && SameClusters(old(disk), disk, g, Elems(chains[dir]) + {chains[r.value][0]})
                && DotEntries(disk, g, chains[r.value][0], old(inodes)[dir].first)
                && StaysApart(old(State()), State(), old(disk), disk, g)
                && (forall j | j in old(chains) && j != dir :: j in chains && chains[j] == old(chains)[j])
    {
      hide TableOk, ClusterChain, ClusterData, Scan, ShortName, Adoptable, Pack, SameClusters, SameFats, Coherent, EntryPlaced;
      hide HasInode, Extended, DotEntries, OnlyAdded, Elems, GrewBy, StaysApart, Internable, Interned, ListsLess, Lists;
      if dir !in inodes {
        return Err("inode not found");
      }
      TableChains(State(), dir);
      if !inodes[dir].isDir {
        return Err("not a directory");
      }
      ghost var t, disk0 := State(), disk;
      ChainOf(t, dir);
      var short := ShortName(name);
      var hit := ScanDirectory(disk, g, ClusterChain(fat, inodes[dir].first), Named(short));
      if hit.At? {
        return Err("dir already exists");
      }
      var c := AllocCluster();
      if c.None? {
        return Err("out of clusters");
      }
      AllocTableOk(t, c.value);
      ghost var t1 := State();
      var ok := WriteDots(c.value, inodes[dir].first);
      if !ok {
        return Err("ata write failed");
      }
      ghost var dotted := disk;
      var entry := Pack(short, 0x10, c.value, 0);
      var w;
      ghost var added;
      w, added := WriteDirEntry(dir, entry);
      ghost var t2 := State();
      if w.Err? {
        return Err(w.error);
      }
      NewDirAdoptable(t, t1, State(), dir, c.value);
      ghost var disk1 := disk;
      TableWords(State());
      OthersKept(t1, State(), dir);
      FlushFat();
      PlacedKept(disk1, disk, g, chains[dir], entry);
      AddedKept(dotted, disk1, disk, g, t.chains[dir], chains[dir], entry);
      SameClustersTrans(dotted, disk1, disk, g, Elems(chains[dir]), {});
      assert Elems(chains[dir]) + {} == Elems(chains[dir]);
      AdoptableApart(State(), dir, c.value);
      DotsKept(dotted, disk, g, c.value, inodes[dir].first, chains[dir]);
      SameClustersTrans(disk0, dotted, disk, g, {c.value}, Elems(chains[dir]));
      assert {c.value} + Elems(chains[dir]) == Elems(chains[dir]) + {c.value};
      TableSize(State());
      AdoptableIs(State(), c.value, [c.value]);
      NewInternable(State(), c.value);
      var id := Intern(c.value, 0, true);
      NewInode(t2, State(), id, Inode(c.value, 0, true), [c.value]);
      MkdirApart(t, t2, State(), disk0, dotted, disk, g, dir, id, added, c.value, short);
      return Ok(id);
    }

    /** `unlink`: free the chain the entry names, remove the entry, flush, and drop the first inode that matches. Nothing
        checks whose clusters these are: the table stays sound exactly when no other file has one of them. */
    method Unlink(dir: nat, name: seq<byte>) returns (r: Result<()>)
      requires Valid()
      modifies this
      ensures r.Err? ==> disk == old(disk) && inodes == old(inodes) && chains == old(chains)
      ensures !UnlinkFinds(old(State()), old(disk), g, dir, ShortName(name)) ==> r.Err? && Valid() && State() == old(State())
      ensures r.Ok? ==>
                && UnlinkFinds(old(State()), old(disk), g, dir, ShortName(name)) && Coherent(disk, g, fat)
                && EntryRemoved(old(disk), disk, g, old(chains)[dir], ShortName(name))
                && var hit := Scan(old(disk), g, old(chains)[dir], Named(ShortName(name)));
                && var e := SlotOf(ClusterData(old(disk), g, hit.c).value, hit.i);
                && Dropped(old(State()), State(), e)
                && (Valid() <==> OthersSpared(old(State()), State(), FreedBy(old(fat), e)))
                && (forall id | OwnsEntry(old(State()), id, e) :: Valid() && State() == UnlinkTable(old(State()), id))
                && (!IsDir(e) ==> forall id | OwnsEntry(old(State()), id, e) :: StaysApart(old(State()), State(), old(disk), disk, g))
    {
      hide TableOk, ClusterChain, ClusterData, Scan, ShortName, Coherent, SameFats, SameClusters, FirstCluster, IsDir, Dropped;
      hide UnlinkTable, OwnsEntry, Clear, HasInode, RemoveInode, Elems, EntryRemoved, OthersSpared, FreedBy, StaysApart;
      if dir !in inodes {
        return Err("inode not found");
      }
      TableChains(State(), dir);
      if !inodes[dir].isDir {
        return Err("not a directory");
      }
      ghost var t, disk0 := State(), disk;
      ChainOf(t, dir);
      TableKeys(t);
      TableWords(t);
      var short := ShortName(name);
      var hit := ScanDirectory(disk, g, ClusterChain(fat, inodes[dir].first), Named(short));
      if !hit.At? {
        return Err("file not found");
      }
      var e := SlotOf(ClusterData(disk, g, hit.c).value, hit.i);
      var first := FirstCluster(e);
      FreedInRange(t.fat, e);
      if first >= 2 {
        FreeAll(ClusterChain(fat, first));
      }
      ghost var cs := FreedBy(t.fat, e);
      ClearWords(t.fat, cs);
      ClearedChain(t.fat, cs, inodes[dir].first);
      var removed := RemoveDirEntry(ClusterChain(fat, inodes[dir].first), short);
      if removed.Err? {
        return Err(removed.error);
      }
      ghost var disk1 := disk;
      FlushFat();
      RemovedKept(disk0, disk1, disk, g, ClusterChain(fat, inodes[dir].first), t.chains[dir], short);
      ghost var t1 := State();
      ghost var d := DropInode(first, IsDir(e));
      DroppedIs(t, State(), e, d);
      RemoveClearedIff(t, State(), cs, d);
      forall id | OwnsEntry(t, id, e)
        ensures Valid() && State() == UnlinkTable(t, id)
      {
        OwnedFirst(t, id, e);
        UnlinkTableOk(t, id, e);
        UnlinkIs(t, t1, id, e);
      }
      forall id | !IsDir(e) && OwnsEntry(t, id, e)
        ensures StaysApart(t, State(), disk0, disk, g)
      {
        UnlinkApart(t, State(), disk0, disk, g, id, e, t.chains[dir], short);
      }
      return Ok(());
    }

    /** Drop the lowest inode with this first cluster and kind; `d` is its number. */
    method DropInode(first: nat, isDir: bool) returns (ghost d: nat)
      requires (forall j | j in inodes :: j < nextInode) && chains.Keys == inodes.Keys
      modifies this`inodes, this`chains, this`slots
      ensures State() == RemoveInode(old(State()), d)
      ensures if HasInode(old(inodes), first, isDir) then d in old(inodes) && Matches(old(inodes)[d], first, isDir)
              else State() == old(State())
      ensures forall j | j in inodes :: j in old(inodes)
      ensures forall id | id in old(inodes) && Matches(old(inodes)[id], first, isDir)
                          && (forall j | j in old(inodes) && old(inodes)[j].first == first :: j == id) :: d == id
    {
      var i := 0;
      while i < nextInode && !(i in inodes && Matches(inodes[i], first, isDir))
        invariant 0 <= i <= nextInode
        invariant forall j | 0 <= j < i && j in inodes :: !Matches(inodes[j], first, isDir)
        invariant State() == old(State())
      {
        i := i + 1;
      }
      d := i;
      if i < nextInode {
        ghost var t := RemoveInode(State(), i);
        inodes := inodes - {i};
        chains, slots := t.chains, t.slots;
      } else {
        NothingRemoved(State(), i);
      }
    }
  }
}
