/** Where FAT copies and clusters lie on the disk, and the FAT's byte encoding. */
module FatLayout {
  import opened Bytes
  import opened Disk
  import opened FatFile
  import opened FatTable
  import opened Wrappers

  /** The fields of the BIOS parameter block, plus the partition's start. */
  datatype Geometry = Geometry(partStart: nat, spc: nat, rsvd: nat, numFats: nat, fatSz: nat, root: nat)

  predicate GeoOk(g: Geometry) { g.spc > 0 && g.fatSz > 0 && g.numFats > 0 }

  function FatStart(g: Geometry): nat { g.partStart + g.rsvd }

  function DataStart(g: Geometry): nat { g.partStart + g.rsvd + g.numFats * g.fatSz }

  function FatAt(g: Geometry, k: nat): nat { SECTOR * (FatStart(g) + k * g.fatSz) }

  function FatLen(g: Geometry): nat { SECTOR * g.fatSz }

  function ClusterLen(g: Geometry): nat { SECTOR * g.spc }

  /** `cluster_to_lba`, in bytes. */
  function ClusterAt(g: Geometry, c: nat): nat
    requires c >= 2
  {
    SECTOR * (DataStart(g) + (c - 2) * g.spc)
  }

  lemma MulLess(a: nat, b: nat, k: nat)
    requires a < b
    ensures a * k + k <= b * k
  {
    assert (a + 1) * k <= b * k;
  }

  /** Every FAT copy ends before the data region. */
  lemma FatBeforeData(g: Geometry, k: nat)
    requires k < g.numFats
    ensures FatAt(g, k) + FatLen(g) <= SECTOR * DataStart(g)
  {
    MulLess(k, g.numFats, g.fatSz);
  }

  lemma DataBeforeCluster(g: Geometry, c: nat)
    requires c >= 2
    ensures SECTOR * DataStart(g) <= ClusterAt(g, c)
  {
  }

  lemma ClustersApart(g: Geometry, c: nat, d: nat)
    requires 2 <= c < d
    ensures ClusterAt(g, c) + ClusterLen(g) <= ClusterAt(g, d)
  {
    MulLess(c - 2, d - 2, g.spc);
  }

  lemma FatsApart(g: Geometry, j: nat, k: nat)
    requires j < k
    ensures FatAt(g, j) + FatLen(g) <= FatAt(g, k)
  {
    MulLess(j, k, g.fatSz);
  }

  /** `read_cluster`: the cluster's bytes, or nothing when it lies past the end of the disk. */
  function ClusterData(disk: seq<byte>, g: Geometry, c: nat): (r: Option<seq<byte>>)
    ensures r.Some? ==> |r.value| == ClusterLen(g)
  {
    if c >= 2 && ClusterAt(g, c) + ClusterLen(g) <= |disk|
    then Some(Get(disk, ClusterAt(g, c), ClusterLen(g))) else None
  }

  function SetCluster(disk: seq<byte>, g: Geometry, c: nat, b: seq<byte>): (r: seq<byte>)
    requires ClusterData(disk, g, c).Some? && |b| == ClusterLen(g)
    ensures |r| == |disk|
  {
    Put(disk, ClusterAt(g, c), b)
  }

  /** The bytes of FAT copy `k`. */
  function FatBytes(disk: seq<byte>, g: Geometry, k: nat): seq<byte>
    requires FatAt(g, k) + FatLen(g) <= |disk|
  {
    Get(disk, FatAt(g, k), FatLen(g))
  }

  predicate Fits(disk: seq<byte>, g: Geometry) {
    SECTOR * DataStart(g) <= |disk|
  }

  /** All FAT copies are where they were. */
  ghost predicate SameFats(disk: seq<byte>, disk': seq<byte>, g: Geometry) {
    && Fits(disk, g) && |disk'| == |disk|
    && (forall k: nat | k < g.numFats :: (FatBeforeData(g, k); FatBytes(disk', g, k) == FatBytes(disk, g, k)))
  }

  /** Everything in front of the first FAT copy is as it was: the MBR, the boot sector, other partitions. */
  ghost predicate SameHead(disk: seq<byte>, disk': seq<byte>, g: Geometry) {
    forall i | 0 <= i < FatAt(g, 0) && i < |disk| && i < |disk'| :: disk'[i] == disk[i]
  }

  /** Clusters outside `touched` are as they were, and so is everything in front of the FAT copies. */
  ghost predicate SameClusters(disk: seq<byte>, disk': seq<byte>, g: Geometry, touched: set<nat>) {
    |disk'| == |disk| && SameHead(disk, disk', g)
    && forall c: nat | c !in touched :: ClusterData(disk', g, c) == ClusterData(disk, g, c)
  }

  lemma HeadBefore(disk: seq<byte>, g: Geometry, at: nat, b: seq<byte>)
    requires FatAt(g, 0) <= at && at + |b| <= |disk|
    ensures SameHead(disk, Put(disk, at, b), g)
  {
  }

  /** Writing a cluster changes that cluster only, and no FAT. */
  lemma SetClusterFrame(disk: seq<byte>, g: Geometry, c: nat, b: seq<byte>)
    requires Fits(disk, g) && ClusterData(disk, g, c).Some? && |b| == ClusterLen(g)
    ensures var disk' := SetCluster(disk, g, c, b);
            && ClusterData(disk', g, c) == Some(b)
            && SameClusters(disk, disk', g, {c}) && SameFats(disk, disk', g)
  {
    var disk' := SetCluster(disk, g, c, b);
    var at := ClusterAt(g, c);
    GetPut(disk, at, b);
    DataBeforeCluster(g, c);
    HeadBefore(disk, g, at, b);
    forall d: nat | d !in {c}
      ensures ClusterData(disk', g, d) == ClusterData(disk, g, d)
    {
      if ClusterData(disk, g, d).Some? {
        if d < c { ClustersApart(g, d, c); } else { ClustersApart(g, c, d); }
        GetPutOther(disk, at, b, ClusterAt(g, d), ClusterLen(g));
      }
    }
    forall k: nat | k < g.numFats
      ensures (FatBeforeData(g, k); FatBytes(disk', g, k) == FatBytes(disk, g, k))
    {
      FatBeforeData(g, k);
      DataBeforeCluster(g, c);
      GetPutOther(disk, at, b, FatAt(g, k), FatLen(g));
    }
  }

  lemma SameClustersTrans(a: seq<byte>, b: seq<byte>, c: seq<byte>, g: Geometry, s: set<nat>, t: set<nat>)
    requires SameClusters(a, b, g, s) && SameClusters(b, c, g, t)
    ensures SameClusters(a, c, g, s + t)
  {
    hide ClusterData;
  }

  lemma SameFatsTrans(a: seq<byte>, b: seq<byte>, c: seq<byte>, g: Geometry)
    requires SameFats(a, b, g) && SameFats(b, c, g)
    ensures SameFats(a, c, g)
  {
    forall k: nat | k < g.numFats
      ensures (FatBeforeData(g, k); FatBytes(c, g, k) == FatBytes(a, g, k))
    {
      FatBeforeData(g, k);
      assert FatBytes(b, g, k) == FatBytes(a, g, k);
    }
  }

  lemma SameRefl(disk: seq<byte>, g: Geometry)
    requires Fits(disk, g)
    ensures SameFats(disk, disk, g) && SameClusters(disk, disk, g, {})
  {
    forall k: nat | k < g.numFats
      ensures (FatBeforeData(g, k); FatBytes(disk, g, k) == FatBytes(disk, g, k))
    {
      FatBeforeData(g, k);
    }
  }

  /** The table as `flush_fat` serialises it. */
  function EncodeFat(fat: Fat): (b: seq<byte>)
    ensures |b| == 4 * |fat|
  {
    if fat == [] then [] else LeEncode(fat[0], 4) + EncodeFat(fat[1..])
  }

  /** The table as `load_fat` parses it. */
  function DecodeFat(b: seq<byte>): (fat: Fat)
    requires |b| % 4 == 0
    ensures 4 * |fat| == |b|
  {
    if b == [] then [] else [LeDecode(b[..4])] + DecodeFat(b[4..])
  }

  predicate Words(fat: Fat) { forall i | 0 <= i < |fat| :: fat[i] < 0x1_0000_0000 }

  lemma {:induction false} DecodeWords(b: seq<byte>)
    requires |b| % 4 == 0
    ensures Words(DecodeFat(b))
  {
    if b != [] {
      DecodeWords(b[4..]);
      assert Pow256(2) == 0x1_0000;
      assert Pow256(4) == 0x1_0000_0000;
      LeRoundTripBytes(b[..4]);
    }
  }

  /** A FAT copy inside the disk loads to whole entries. */
  lemma LoadFits(disk: seq<byte>, g: Geometry)
    requires FatAt(g, 0) + FatLen(g) <= |disk|
    ensures |FatBytes(disk, g, 0)| % 4 == 0
    ensures 4 * |DecodeFat(FatBytes(disk, g, 0))| == FatLen(g) && Words(DecodeFat(FatBytes(disk, g, 0)))
  {
    hide DecodeFat;
    assert FatLen(g) == 4 * (128 * g.fatSz);
    DecodeWords(FatBytes(disk, g, 0));
  }

  /** `load_fat`. */
  function LoadFat(disk: seq<byte>, g: Geometry): (fat: Fat)
    requires FatAt(g, 0) + FatLen(g) <= |disk|
    ensures 4 * |fat| == FatLen(g) && Words(fat)
  {
    LoadFits(disk, g);
    DecodeFat(FatBytes(disk, g, 0))
  }

  /** `load_fat` inverts `flush_fat`. */
  lemma {:induction false} FatRoundTrip(fat: Fat)
    requires Words(fat)
    ensures DecodeFat(EncodeFat(fat)) == fat
  {
    if fat != [] {
      assert Pow256(2) == 0x1_0000;
      assert Pow256(4) == 0x1_0000_0000;
      LeRoundTrip(fat[0], 4);
      FatRoundTrip(fat[1..]);
      var b := EncodeFat(fat);
      assert b[..4] == LeEncode(fat[0], 4) && b[4..] == EncodeFat(fat[1..]);
    }
  }

  /** Every FAT copy on disk decodes to the cached table. */
  ghost predicate Coherent(disk: seq<byte>, g: Geometry, fat: Fat) {
    && Fits(disk, g)
    && forall k: nat | k < g.numFats ::
         (FatBeforeData(g, k); |FatBytes(disk, g, k)| % 4 == 0 && DecodeFat(FatBytes(disk, g, k)) == fat)
  }

  lemma CoherentKept(disk: seq<byte>, disk': seq<byte>, g: Geometry, fat: Fat)
    requires Coherent(disk, g, fat) && SameFats(disk, disk', g)
    ensures Coherent(disk', g, fat)
  {
    forall k: nat | k < g.numFats
      ensures (FatBeforeData(g, k); |FatBytes(disk', g, k)| % 4 == 0 && DecodeFat(FatBytes(disk', g, k)) == fat)
    {
      FatBeforeData(g, k);
      assert FatBytes(disk', g, k) == FatBytes(disk, g, k);
    }
  }

  /** FAT copies 0 .. n hold `table`. */
  ghost predicate Flushed(disk: seq<byte>, g: Geometry, table: seq<byte>, n: nat) {
    && Fits(disk, g) && n <= g.numFats
    && forall k: nat | k < n :: (FatBeforeData(g, k); FatBytes(disk, g, k) == table)
  }

  /** Writing FAT copy `n` keeps the earlier copies and every cluster. */
  lemma FlushOne(disk: seq<byte>, g: Geometry, table: seq<byte>, n: nat)
    requires Flushed(disk, g, table, n) && n < g.numFats && |table| == FatLen(g)
    ensures FatAt(g, n) + FatLen(g) <= |disk|
    ensures var disk' := Put(disk, FatAt(g, n), table);
            Flushed(disk', g, table, n + 1) && SameClusters(disk, disk', g, {})
  {
    FatBeforeData(g, n);
    var disk' := Put(disk, FatAt(g, n), table);
    GetPut(disk, FatAt(g, n), table);
    HeadBefore(disk, g, FatAt(g, n), table);
    var m := n + 1;
    forall k: nat | k < m
      ensures (FatBeforeData(g, k); FatBytes(disk', g, k) == table)
    {
      FatBeforeData(g, k);
      if k < n {
        FatsApart(g, k, n);
        GetPutOther(disk, FatAt(g, n), table, FatAt(g, k), FatLen(g));
        assert FatBytes(disk, g, k) == table;
      }
    }
    forall c: nat
      ensures ClusterData(disk', g, c) == ClusterData(disk, g, c)
    {
      if ClusterData(disk, g, c).Some? {
        DataBeforeCluster(g, c);
        GetPutOther(disk, FatAt(g, n), table, ClusterAt(g, c), ClusterLen(g));
      }
    }
  }

  lemma FlushedCoherent(disk: seq<byte>, g: Geometry, fat: Fat)
    requires Flushed(disk, g, EncodeFat(fat), g.numFats) && Words(fat)
    ensures Coherent(disk, g, fat)
  {
    hide EncodeFat, DecodeFat, FatBytes;
    FatRoundTrip(fat);
    forall k: nat | k < g.numFats
      ensures (FatBeforeData(g, k); |FatBytes(disk, g, k)| % 4 == 0 && DecodeFat(FatBytes(disk, g, k)) == fat)
    {
      FatBeforeData(g, k);
      assert FatBytes(disk, g, k) == EncodeFat(fat);
    }
  }

  /** The data of a chain, cluster by cluster. */
  predicate Readable(disk: seq<byte>, g: Geometry, ch: seq<nat>) {
    forall i | 0 <= i < |ch| :: ClusterData(disk, g, ch[i]).Some?
  }

  function ChainBlocks(disk: seq<byte>, g: Geometry, ch: seq<nat>): (r: Blocks)
    requires Readable(disk, g, ch) && GeoOk(g)
    ensures |r| == |ch| && Sized(r, ClusterLen(g))
    ensures forall i | 0 <= i < |ch| :: ClusterData(disk, g, ch[i]) == Some(r[i])
  {
    seq(|ch|, i requires 0 <= i < |ch| => ClusterData(disk, g, ch[i]).value)
  }

  /** Chains away from the touched clusters keep their contents. */
  lemma BlocksKept(disk: seq<byte>, disk': seq<byte>, g: Geometry, ch: seq<nat>, touched: set<nat>)
    requires SameClusters(disk, disk', g, touched) && GeoOk(g) && Readable(disk, g, ch)
    requires forall i | 0 <= i < |ch| :: ch[i] !in touched
    ensures Readable(disk', g, ch) && ChainBlocks(disk', g, ch) == ChainBlocks(disk, g, ch)
  {
    hide ClusterData;
    assert forall i | 0 <= i < |ch| :: ClusterData(disk', g, ch[i]) == ClusterData(disk, g, ch[i]);
  }

  /** Rewriting one cluster of a chain of distinct clusters rewrites one block. */
  lemma SetBlock(disk: seq<byte>, g: Geometry, ch: seq<nat>, i: nat, b: seq<byte>)
    requires Fits(disk, g) && GeoOk(g) && Readable(disk, g, ch) && Distinct(ch) && i < |ch| && |b| == ClusterLen(g)
    ensures var disk' := SetCluster(disk, g, ch[i], b);
            Readable(disk', g, ch) && ChainBlocks(disk', g, ch) == ChainBlocks(disk, g, ch)[i := b]
  {
    var disk' := SetCluster(disk, g, ch[i], b);
    SetClusterFrame(disk, g, ch[i], b);
    hide ClusterData, SetCluster;
    forall j | 0 <= j < |ch|
      ensures ClusterData(disk', g, ch[j]) == if j == i then Some(b) else ClusterData(disk, g, ch[j])
    {
    }
  }
}
