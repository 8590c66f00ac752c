/** The FAT32 partition that the build script writes, byte by byte. */
module FatImage {
  import opened Bytes
  import opened Disk
  import opened FatDir
  import opened FatLayout
  import opened FatTable
  import opened Wrappers

  const SECTORS: nat := 16384
  const RSVD: nat := 32
  const FATS: nat := 2
  const FAT_SZ: nat := 126
  const DATA_START: nat := 284
  const ROOT: nat := 2
  const START: nat := 5

  /** The geometry the boot sector announces, for a partition at `partStart`. */
  function Shipped(partStart: nat): Geometry { Geometry(partStart, 1, RSVD, FATS, FAT_SZ, ROOT) }

  /** The four files of the image. */
  datatype Payload = Payload(hello: seq<byte>, forktest: seq<byte>, sysutils: seq<byte>, readme: seq<byte>)

  datatype File = Hello | Forktest | Sysutils | Readme

  function Content(p: Payload, f: File): seq<byte> {
    match f
    case Hello => p.hello
    case Forktest => p.forktest
    case Sysutils => p.sysutils
    case Readme => p.readme
  }

  function Base(f: File): seq<byte> {
    match f
    case Hello => [0x48, 0x45, 0x4C, 0x4C, 0x4F]
    case Forktest => [0x46, 0x4F, 0x52, 0x4B, 0x54, 0x45, 0x53, 0x54]
    case Sysutils => [0x53, 0x59, 0x53, 0x55, 0x54, 0x49, 0x4C, 0x53]
    case Readme => [0x52, 0x45, 0x41, 0x44, 0x4D, 0x45]
  }

  function Label(): seq<byte> { [0x41, 0x45, 0x52, 0x4F, 0x53, 0x20, 0x44, 0x49, 0x53, 0x4B, 0x20] }

  function SlotNumber(f: File): nat {
    match f
    case Hello => 1
    case Forktest => 2
    case Sysutils => 3
    case Readme => 4
  }

  /** `sysutils_clusters`. */
  function Clusters(p: Payload): nat { (|p.sysutils| + 511) / 512 }

  function First(p: Payload, f: File): nat {
    match f
    case Hello => 3
    case Forktest => 4
    case Sysutils => START
    case Readme => START + Clusters(p)
  }

  function Length(p: Payload, f: File): nat { if f == Sysutils then Clusters(p) else 1 }

  function Chain(p: Payload, f: File): (ch: seq<nat>)
    ensures |ch| == Length(p, f)
  {
    seq(Length(p, f), i => First(p, f) + i)
  }

  /** The build succeeds: single-cluster files fit their cluster and everything fits the data area. */
  predicate Builds(p: Payload) {
    |p.hello| <= 512 && |p.forktest| <= 512 && |p.readme| <= 512 && START + Clusters(p) < SECTORS - DATA_START + 2
  }

  /** Entry `i` of the table that `make_fat` builds. */
  function TableEntry(p: Payload, i: nat): nat {
    if i == 0 then 0x0FFF_FFF8
    else if START <= i < START + Clusters(p) - 1 then i + 1
    else if i <= START + Clusters(p) then EOC
    else FREE
  }

  /** Up to 512 bytes of `s` from `from` on, padded with zeros. */
  function Block(s: seq<byte>, from: nat): (b: seq<byte>)
    ensures |b| == 512
    ensures forall j | 0 <= j < 512 :: b[j] == if from + j < |s| then s[from + j] else 0
  {
    seq(512, j requires 0 <= j => if from + j < |s| then s[from + j] else 0)
  }

  /** Overwrite a range in place. */
  method Patch(b: seq<byte>, at: nat, x: seq<byte>) returns (r: seq<byte>)
    requires at + |x| <= |b|
    ensures |r| == |b|
    ensures forall i | 0 <= i < |b| :: r[i] == if at <= i < at + |x| then x[i - at] else b[i]
    ensures r == Put(b, at, x)
  {
    r := Put(b, at, x);
  }

  /** The fields of a boot sector as the kernel reads them. */
  function ParseBpb(partStart: nat, b: seq<byte>): Option<Geometry>
    requires |b| == 512
  {
    var spc, fatSz := b[13], LeDecode(b[36..40]);
    if b[510] != 0x55 || b[511] != 0xAA || LeDecode(b[11..13]) != 512 || spc == 0 || fatSz == 0 then None
    else Some(Geometry(partStart, spc, LeDecode(b[14..16]), b[16], fatSz, LeDecode(b[44..48])))
  }

  /** `make_bpb`, up to the number of FATs. */
  method BpbHead() returns (b: seq<byte>)
    ensures |b| == 512 && b[13] == 1 && b[16] == FATS
    ensures b[11..13] == LeEncode(512, 2) && b[14..16] == LeEncode(RSVD, 2)
  {
    hide LeEncode, Put;
    b := Zeros(512);
    b := Patch(b, 0, [0xEB, 0x3C, 0x90]);
    b := Patch(b, 3, [0x41, 0x45, 0x52, 0x4F, 0x53, 0x20, 0x20, 0x20]);
    b := Patch(b, 11, LeEncode(512, 2));
    assert b[11..13] == LeEncode(512, 2);
    b := KeepPatch(b, 13, [1], 11, 13);
    b := KeepPatch(b, 14, LeEncode(RSVD, 2), 11, 13);
    assert b[14..16] == LeEncode(RSVD, 2) && b[13] == 1;
    ghost var front := b;
    b := Patch(b, 16, [FATS]);
    assert b[..16] == front[..16];
    assert b[11..13] == b[..16][11..13] && front[11..13] == front[..16][11..13];
    assert b[14..16] == b[..16][14..16] && front[14..16] == front[..16][14..16];
    assert b[13] == b[..16][13];
  }

  /** A patch that leaves a given range alone. */
  method KeepPatch(b: seq<byte>, at: nat, x: seq<byte>, from: nat, to: nat) returns (r: seq<byte>)
    requires at + |x| <= |b| && from <= to <= |b| && (to <= at || at + |x| <= from)
    ensures |r| == |b|
    ensures forall i | 0 <= i < |b| :: r[i] == if at <= i < at + |x| then x[i - at] else b[i]
    ensures r[from..to] == b[from..to]
  {
    r := Patch(b, at, x);
  }

  /** `make_bpb`, up to the extended fields. */
  method BpbFront() returns (b: seq<byte>)
    ensures |b| == 512 && b[13] == 1 && b[16] == FATS
    ensures b[11..13] == LeEncode(512, 2) && b[14..16] == LeEncode(RSVD, 2)
  {
    hide LeEncode, Put;
    b := BpbHead();
    ghost var front := b[..17];
    b := KeepPatch(b, 17, LeEncode(0, 2), 0, 17);
    b := KeepPatch(b, 19, LeEncode(0, 2), 0, 17);
    b := KeepPatch(b, 21, [0xF8], 0, 17);
    b := KeepPatch(b, 22, LeEncode(0, 2), 0, 17);
    b := KeepPatch(b, 24, LeEncode(63, 2), 0, 17);
    b := KeepPatch(b, 26, LeEncode(255, 2), 0, 17);
    b := KeepPatch(b, 28, LeEncode(0, 4), 0, 17);
    b := KeepPatch(b, 32, LeEncode(SECTORS, 4), 0, 17);
    assert b[0..17] == front;
    assert b[11..13] == b[0..17][11..13] && b[14..16] == b[0..17][14..16];
    assert front[11..13] == LeEncode(512, 2) && front[14..16] == LeEncode(RSVD, 2);
    assert b[13] == b[0..17][13] && b[16] == b[0..17][16];
  }

  /** `make_bpb`: the kernel reads back the intended geometry. */
  method MakeBpb() returns (b: seq<byte>)
    ensures |b| == 512
    ensures forall start: nat :: ParseBpb(start, b) == Some(Shipped(start))
  {
    hide LeEncode, Put;
    b := BpbFront();
    b := MakeBpbTail(b);
    BpbFields(b);
  }

  /** The extended fields, the labels and the signature. */
  method MakeBpbTail(front: seq<byte>) returns (b: seq<byte>)
    requires |front| == 512
    ensures |b| == 512 && b[510] == 0x55 && b[511] == 0xAA
    ensures b[13] == front[13] && b[16] == front[16] && b[11..13] == front[11..13] && b[14..16] == front[14..16]
    ensures b[36..40] == LeEncode(FAT_SZ, 4) && b[44..48] == LeEncode(ROOT, 4)
  {
    hide LeEncode, Put;
    b := KeepPatch(front, 36, LeEncode(FAT_SZ, 4), 0, 36);
    assert b[36..40] == LeEncode(FAT_SZ, 4);
    assert b[0..36] == front[0..36];
    b := KeepPatch(b, 40, LeEncode(0, 2), 0, 40);
    b := KeepPatch(b, 42, LeEncode(0, 2), 0, 40);
    ghost var upTo40 := b[0..40];
    assert upTo40[36..40] == LeEncode(FAT_SZ, 4) && upTo40[..36] == front[0..36];
    b := KeepPatch(b, 44, LeEncode(ROOT, 4), 0, 40);
    assert b[44..48] == LeEncode(ROOT, 4);
    ghost var fields := b[0..48];
    assert fields[44..48] == LeEncode(ROOT, 4) && fields[..40] == upTo40;
    b := BpbLabels(b);
    Prefixes(b, front, upTo40, fields);
  }

  method BpbLabels(fields: seq<byte>) returns (b: seq<byte>)
    requires |fields| == 512
    ensures |b| == 512 && b[510] == 0x55 && b[511] == 0xAA && b[0..48] == fields[0..48]
  {
    hide LeEncode, Put;
    b := KeepPatch(fields, 48, LeEncode(1, 2), 0, 48);
    b := KeepPatch(b, 50, LeEncode(6, 2), 0, 48);
    b := KeepPatch(b, 64, [0x80], 0, 48);
    b := KeepPatch(b, 66, [0x29], 0, 48);
    b := KeepPatch(b, 67, LeEncode(0x1234_5678, 4), 0, 48);
    b := KeepPatch(b, 71, Label(), 0, 48);
    b := KeepPatch(b, 82, [0x46, 0x41, 0x54, 0x33, 0x32, 0x20, 0x20, 0x20], 0, 48);
    b := KeepPatch(b, 510, [0x55], 0, 48);
    b := KeepPatch(b, 511, [0xAA], 0, 48);
  }

  lemma Prefixes(b: seq<byte>, front: seq<byte>, upTo40: seq<byte>, fields: seq<byte>)
    requires |b| == |front| == 512 && b[0..48] == fields && |upTo40| == 40 && fields[..40] == upTo40 && upTo40[..36] == front[0..36]
    ensures b[13] == front[13] && b[16] == front[16] && b[11..13] == front[11..13] && b[14..16] == front[14..16]
    ensures b[36..40] == upTo40[36..40] && b[44..48] == fields[44..48]
  {
    assert b[0..36] == front[0..36] by {
      assert b[0..36] == fields[..40][..36];
    }
    assert forall i | 0 <= i < 36 :: b[i] == b[0..36][i] == front[0..36][i] == front[i];
    assert b[36..40] == fields[..40][36..40];
  }

  lemma BpbFields(b: seq<byte>)
    requires |b| == 512 && b[13] == 1 && b[16] == FATS && b[510] == 0x55 && b[511] == 0xAA
    requires b[11..13] == LeEncode(512, 2) && b[14..16] == LeEncode(RSVD, 2)
    requires b[36..40] == LeEncode(FAT_SZ, 4) && b[44..48] == LeEncode(ROOT, 4)
    ensures forall start: nat :: ParseBpb(start, b) == Some(Shipped(start))
  {
    assert Pow256(2) == 0x1_0000;
    LeRoundTrip(512, 2);
    LeRoundTrip(RSVD, 2);
    Le4(FAT_SZ);
    Le4(ROOT);
    hide LeEncode, LeDecode;
  }

  /** Decoding is entry by entry. */
  lemma {:induction false} DecodeFatAt(b: seq<byte>, i: nat)
    requires |b| % 4 == 0 && 4 * i < |b|
    ensures DecodeFat(b)[i] == LeDecode(b[4 * i..4 * i + 4])
  {
    if i > 0 {
      DecodeFatAt(b[4..], i - 1);
      assert b[4..][4 * (i - 1)..4 * (i - 1) + 4] == b[4 * i..4 * i + 4];
    }
  }

  /** The `set` closure of `make_fat` writes one entry. */
  lemma DecodeFatPut(b: seq<byte>, n: nat, i: nat, v: nat)
    requires |b| == 4 * n && i < n && v < 0x1_0000_0000
    ensures DecodeFat(Put(b, 4 * i, LeEncode(v, 4))) == DecodeFat(b)[i := v]
  {
    hide DecodeFat, Put, LeEncode;
    forall j: nat | j < n
      ensures DecodeFat(Put(b, 4 * i, LeEncode(v, 4)))[j] == DecodeFat(b)[i := v][j]
    {
      DecodeFatPutAt(b, i, v, j);
    }
  }

  lemma DecodeFatPutAt(b: seq<byte>, i: nat, v: nat, j: nat)
    requires |b| % 4 == 0 && 4 * i < |b| && 4 * j < |b| && v < 0x1_0000_0000
    ensures DecodeFat(Put(b, 4 * i, LeEncode(v, 4)))[j] == if j == i then v else DecodeFat(b)[j]
  {
    hide DecodeFat, LeDecode, LeEncode, Put;
    var b' := Put(b, 4 * i, LeEncode(v, 4));
    DecodeFatAt(b, j);
    DecodeFatAt(b', j);
    PutEntryAt(b, i, v, j);
  }

  lemma PutEntryAt(b: seq<byte>, i: nat, v: nat, j: nat)
    requires |b| % 4 == 0 && 4 * i < |b| && 4 * j < |b| && v < 0x1_0000_0000
    ensures LeDecode(Put(b, 4 * i, LeEncode(v, 4))[4 * j..4 * j + 4]) == if i == j then v else LeDecode(b[4 * j..4 * j + 4])
  {
    var b' := Put(b, 4 * i, LeEncode(v, 4));
    if i == j {
      Le4(v);
      assert b'[4 * j..4 * j + 4] == LeEncode(v, 4);
    } else {
      assert b'[4 * j..4 * j + 4] == b[4 * j..4 * j + 4];
    }
  }

  lemma DecodeZeros(n: nat)
    requires n % 4 == 0
    ensures forall i | 0 <= i < n / 4 :: DecodeFat(Zeros(n))[i] == 0
  {
    forall i | 0 <= i < n / 4
      ensures DecodeFat(Zeros(n))[i] == 0
    {
      DecodeFatAt(Zeros(n), i);
      assert Zeros(n)[4 * i..4 * i + 4] == Zeros(4);
      ZerosDecode(4);
    }
  }

  /** `set`. */
  method SetEntry(b: seq<byte>, i: nat, v: nat) returns (r: seq<byte>)
    requires |b| % 4 == 0 && 4 * i < |b| && v < 0x1_0000_0000
    ensures |r| == |b| && DecodeFat(r) == DecodeFat(b)[i := v]
  {
    r := Put(b, 4 * i, LeEncode(v, 4));
    DecodeFatPut(b, |b| / 4, i, v);
  }

  /** `make_fat`: the table decodes to the intended chains. */
  method MakeFat(p: Payload) returns (b: seq<byte>)
    requires Builds(p)
    ensures |b| == 512 * FAT_SZ
    ensures forall i | 0 <= i < 128 * FAT_SZ :: DecodeFat(b)[i] == TableEntry(p, i)
  {
    hide DecodeFat, Zeros;
    b := Zeros(512 * FAT_SZ);
    DecodeZeros(512 * FAT_SZ);
    b := SetEntry(b, 0, 0x0FFF_FFF8);
    b := SetEntry(b, 1, EOC);
    b := SetEntry(b, 2, EOC);
    b := SetEntry(b, 3, EOC);
    b := SetEntry(b, 4, EOC);
    var n := Clusters(p);
    var i := 0;
    while i < n
      invariant 0 <= i <= n && |b| == 512 * FAT_SZ
      invariant forall j | 0 <= j < START + i :: DecodeFat(b)[j] == TableEntry(p, j)
      invariant forall j | START + i <= j < 128 * FAT_SZ :: DecodeFat(b)[j] == 0
    {
      var next := if i + 1 == n then EOC else START + i + 1;
      b := SetEntry(b, START + i, next);
      i := i + 1;
    }
    b := SetEntry(b, START + n, EOC);
  }

  /** What the kernel needs of a directory entry. */
  predicate IsFileEntry(e: seq<byte>, name: seq<byte>, first: nat, size: nat) {
    IsSlot(e) && Name(e) == name && e[11] == ATTR_ARCHIVE && FirstCluster(e) == first && FileSize(e) == size
  }

  /** One of the file entries of `make_root_cluster`. */
  method FileEntry(name: seq<byte>, first: nat, size: nat) returns (e: seq<byte>)
    requires |name| == 11 && first < 0x1_0000 && size < 0x1_0000_0000
    ensures IsSlot(e) && IsFileEntry(e, name, first, size)
  {
    hide LeEncode, Put, FirstCluster, FileSize, IsFileEntry;
    e := Zeros(32);
    e := Patch(e, 0, name);
    e := Patch(e, 11, [ATTR_ARCHIVE]);
    e := Patch(e, 13, [0x10]);
    e := Patch(e, 14, LeEncode(0x8A17, 2));
    e := Patch(e, 16, LeEncode(0x4A4B, 2));
    e := Patch(e, 18, LeEncode(0x4A4B, 2));
    e := Patch(e, 22, LeEncode(0x8A17, 2));
    e := Patch(e, 24, LeEncode(0x4A4B, 2));
    e := Patch(e, 26, LeEncode(first, 2));
    e := Patch(e, 28, LeEncode(size, 4));
    assert e[..11] == name && e[26..28] == LeEncode(first, 2) && e[28..32] == LeEncode(size, 4);
    assert e[20..22] == Zeros(2);
    EntryFields(e, name, first, size);
  }

  lemma EntryFields(e: seq<byte>, name: seq<byte>, first: nat, size: nat)
    requires |name| == 11 && first < 0x1_0000 && size < 0x1_0000_0000
    requires IsSlot(e) && e[..11] == name && e[11] == ATTR_ARCHIVE
    requires e[20..22] == Zeros(2) && e[26..28] == LeEncode(first, 2) && e[28..32] == LeEncode(size, 4)
    ensures IsFileEntry(e, name, first, size)
  {
    ZerosDecode(2);
    assert Pow256(2) == 0x1_0000;
    LeRoundTrip(first, 2);
    Le4(size);
    hide LeEncode, LeDecode, Zeros;
  }

  /** The root directory as the kernel will see it. */
  ghost predicate RootOk(p: Payload, root: seq<byte>) {
    && |root| == 512 && SlotOf(root, 0)[..11] == Label() && SlotOf(root, 0)[11] == 0x08 && FirstCluster(SlotOf(root, 0)) == 0
    && (forall f: File :: IsFileEntry(SlotOf(root, SlotNumber(f)), Pad(Base(f), 11), First(p, f), |Content(p, f)|))
    && forall j: nat | 5 <= j < 16 :: SlotOf(root, j)[0] == 0
  }

  lemma SlotPut(b: seq<byte>, k: nat, e: seq<byte>, j: nat)
    requires IsSlot(e) && SLOT * k + SLOT <= |b| && SLOT * j + SLOT <= |b|
    ensures SlotOf(Put(b, SLOT * k, e), j) == if j == k then e else SlotOf(b, j)
  {
  }

  method PutSlot(b: seq<byte>, k: nat, e: seq<byte>) returns (r: seq<byte>)
    requires IsSlot(e) && SLOT * k + SLOT <= |b|
    ensures |r| == |b|
    ensures forall j: nat | SLOT * j + SLOT <= |b| :: SlotOf(r, j) == if j == k then e else SlotOf(b, j)
  {
    r := Put(b, SLOT * k, e);
    forall j: nat | SLOT * j + SLOT <= |b|
      ensures SlotOf(r, j) == if j == k then e else SlotOf(b, j)
    {
      SlotPut(b, k, e, j);
    }
  }

  lemma SizesFit(p: Payload, f: File)
    requires Builds(p)
    ensures |Content(p, f)| < 0x1_0000_0000 && First(p, f) < 0x1_0000
  {
  }

  lemma ZeroSlots()
    ensures forall j: nat | 5 <= j < 16 :: SlotOf(Zeros(512), j)[0] == 0
  {
  }

  lemma LabelCluster(e: seq<byte>)
    requires IsSlot(e) && (forall k | 20 <= k < 22 || 26 <= k < 28 :: e[k] == 0)
    ensures FirstCluster(e) == 0
  {
    assert e[20..22] == Zeros(2) && e[26..28] == Zeros(2);
    ZerosDecode(2);
  }

  /** The volume label. */
  method VolumeEntry() returns (volume: seq<byte>)
    ensures IsSlot(volume) && volume[..11] == Label() && volume[11] == 0x08 && FirstCluster(volume) == 0
  {
    hide FirstCluster;
    volume := Zeros(32);
    volume := Patch(volume, 0, Label());
    volume := Patch(volume, 11, [0x08]);
    volume := Patch(volume, 13, [0x10]);
    volume := Patch(volume, 14, LeEncode(0x8A17, 2));
    volume := Patch(volume, 16, LeEncode(0x4A4B, 2));
    assert volume[..11] == Label() && volume[11] == 0x08;
    LabelCluster(volume);
  }

  /** `make_root_cluster`. */
  method MakeRoot(p: Payload) returns (b: seq<byte>)
    requires Builds(p)
    ensures RootOk(p, b)
  {
    hide IsFileEntry, SlotOf, Put;
    var volume := VolumeEntry();
    b := Zeros(512);
    ZeroSlots();
    b := PutSlot(b, 0, volume);
    SizesFit(p, Hello);
    SizesFit(p, Forktest);
    SizesFit(p, Sysutils);
    SizesFit(p, Readme);
    var e := FileEntry(Pad(Base(Hello), 11), 3, |p.hello|);
    b := PutSlot(b, 1, e);
    e := FileEntry(Pad(Base(Forktest), 11), 4, |p.forktest|);
    b := PutSlot(b, 2, e);
    e := FileEntry(Pad(Base(Sysutils), 11), START, |p.sysutils|);
    b := PutSlot(b, 3, e);
    e := FileEntry(Pad(Base(Readme), 11), START + Clusters(p), |p.readme|);
    b := PutSlot(b, 4, e);
    forall f: File
      ensures IsFileEntry(SlotOf(b, SlotNumber(f)), Pad(Base(f), 11), First(p, f), |Content(p, f)|)
    {
      match f case Hello => case Forktest => case Sysutils => case Readme =>
    }
  }

  /** Sector `j` of the data area, given the root directory. */
  function DataBlock(p: Payload, root: seq<byte>, j: nat): seq<byte> {
    if j == 0 then root
    else if j == 1 then Block(p.hello, 0)
    else if j == 2 then Block(p.forktest, 0)
    else if j < 3 + Clusters(p) then Block(p.sysutils, 512 * (j - 3))
    else Block(p.readme, 0)
  }

  ghost predicate Data(p: Payload, root: seq<byte>, data: seq<byte>, n: nat) {
    && |data| == 512 * n
    && forall j: nat | j < n :: data[512 * j..512 * j + 512] == DataBlock(p, root, j)
  }

  lemma DataGrows(p: Payload, root: seq<byte>, data: seq<byte>, n: nat, b: seq<byte>)
    requires Data(p, root, data, n) && b == DataBlock(p, root, n) && |b| == 512
    ensures Data(p, root, data + b, n + 1)
  {
    hide DataBlock;
    var data', m := data + b, n + 1;
    forall j: nat | j < m
      ensures data'[512 * j..512 * j + 512] == DataBlock(p, root, j)
    {
      if j < n {
        assert data'[512 * j..512 * j + 512] == data[512 * j..512 * j + 512];
      } else {
        assert data'[512 * n..512 * n + 512] == b;
      }
    }
  }

  /** The data clusters in the order `make_fat32_partition` appends them. */
  method MakeData(p: Payload, root: seq<byte>) returns (data: seq<byte>)
    requires Builds(p) && |root| == 512
    ensures Data(p, root, data, START - 1 + Clusters(p))
  {
    hide Data;
    DataStarts(p, root);
    data := root;
    DataGrows(p, root, data, 1, Block(p.hello, 0));
    data := data + Block(p.hello, 0);
    DataGrows(p, root, data, 2, Block(p.forktest, 0));
    data := data + Block(p.forktest, 0);
    var n, i := Clusters(p), 0;
    var remaining := p.sysutils;
    assert remaining == Rest(p.sysutils, 0);
    hide Block, Clusters, DataBlock, Rest;
    while i < n
      invariant 0 <= i <= n && Data(p, root, data, 3 + i) && remaining == Rest(p.sysutils, i)
    {
      var take := if |remaining| < 512 then |remaining| else 512;
      var c := remaining[..take] + Zeros(512 - take);
      NextBlock(p, root, i);
      DataGrows(p, root, data, 3 + i, c);
      data := data + c;
      remaining := remaining[take..];
      i := i + 1;
    }
    ReadmeBlock(p, root);
    DataGrows(p, root, data, 3 + n, Block(p.readme, 0));
    data := data + Block(p.readme, 0);
  }

  /** What is left of a file after `i` whole clusters. */
  function Rest(s: seq<byte>, i: nat): seq<byte> { if 512 * i <= |s| then s[512 * i..] else [] }

  lemma NextBlock(p: Payload, root: seq<byte>, i: nat)
    requires i < Clusters(p)
    ensures var remaining := Rest(p.sysutils, i);
            var take := if |remaining| < 512 then |remaining| else 512;
            && DataBlock(p, root, 3 + i) == remaining[..take] + Zeros(512 - take)
            && remaining[take..] == Rest(p.sysutils, i + 1)
  {
    assert 512 * i < |p.sysutils|;
    var remaining := Rest(p.sysutils, i);
    var take := if |remaining| < 512 then |remaining| else 512;
    assert DataBlock(p, root, 3 + i) == Block(p.sysutils, 512 * i);
    assert remaining[..take] + Zeros(512 - take) == Block(p.sysutils, 512 * i);
  }

  lemma ReadmeBlock(p: Payload, root: seq<byte>)
    ensures DataBlock(p, root, 3 + Clusters(p)) == Block(p.readme, 0)
  {
  }

  lemma DataStarts(p: Payload, root: seq<byte>)
    requires |root| == 512
    ensures Data(p, root, root, 1)
  {
    assert root[0..512] == root;
  }

  function DataSector(part: seq<byte>, j: nat): seq<byte>
    requires |part| == 512 * SECTORS && DATA_START + j < SECTORS
  {
    part[512 * (DATA_START + j)..512 * (DATA_START + j) + 512]
  }

  /** What the partition holds, sector by sector. */
  ghost predicate PartitionOk(p: Payload, part: seq<byte>) {
    && |part| == 512 * SECTORS
    && (forall start: nat :: ParseBpb(start, part[..512]) == Some(Shipped(start)))
    && (forall k: nat | k < 2 :: TableOf(p, part[512 * (RSVD + FAT_SZ * k)..512 * (RSVD + FAT_SZ * k) + 512 * FAT_SZ]))
    && RootOk(p, DataSector(part, 0))
    && forall j: nat | j < START - 1 + Clusters(p) && DATA_START + j < SECTORS ::
         DataSector(part, j) == DataBlock(p, DataSector(part, 0), j)
  }

  ghost predicate TableOf(p: Payload, b: seq<byte>) {
    |b| == 512 * FAT_SZ && forall i | 0 <= i < 128 * FAT_SZ :: DecodeFat(b)[i] == TableEntry(p, i)
  }

  /** `make_fat32_partition`; None where the build script panics. */
  method MakePartition(p: Payload) returns (r: Option<seq<byte>>)
    ensures r.Some? <==> Builds(p)
    ensures r.Some? ==> PartitionOk(p, r.value)
  {
    if !(|p.hello| <= 512 && |p.forktest| <= 512 && |p.readme| <= 512 && START + Clusters(p) < SECTORS - DATA_START + 2) {
      return None;
    }
    hide RootOk, Data, DecodeFat, TableOf, ParseBpb;
    var bpb := MakeBpb();
    var fsinfo := Zeros(512);
    fsinfo := Patch(fsinfo, 0, [0x52, 0x52, 0x61, 0x41]);
    fsinfo := Patch(fsinfo, 510, LeEncode(0xAA55, 2));
    var fat := MakeFat(p);
    var root := MakeRoot(p);
    RootLen(p, root);
    var data := MakeData(p, root);
    DataLen(p, root, data);
    TableIs(p, fat);
    var fill := Zeros(512 * (SECTORS - DATA_START) - |data|);
    var head := bpb + fsinfo + Zeros(30 * 512);
    var img := head + fat + fat + data + fill;
    assert head[..512] == bpb;
    Assembled(p, root, head, fat, data, fill, img);
    return Some(img);
  }

  lemma RootLen(p: Payload, root: seq<byte>)
    requires RootOk(p, root)
    ensures |root| == 512
  {
  }

  lemma DataLen(p: Payload, root: seq<byte>, data: seq<byte>)
    requires Data(p, root, data, START - 1 + Clusters(p))
    ensures |data| == 512 * (START - 1 + Clusters(p))
  {
  }

  lemma TableIs(p: Payload, b: seq<byte>)
    requires |b| == 512 * FAT_SZ && forall i | 0 <= i < 128 * FAT_SZ :: DecodeFat(b)[i] == TableEntry(p, i)
    ensures TableOf(p, b)
  {
  }

  lemma Assembled(p: Payload, root: seq<byte>, head: seq<byte>, fat: seq<byte>, data: seq<byte>, fill: seq<byte>, img: seq<byte>)
    requires Builds(p) && |head| == 512 * RSVD && |fat| == 512 * FAT_SZ && TableOf(p, fat) && RootOk(p, root) && |root| == 512
    requires forall start: nat :: ParseBpb(start, head[..512]) == Some(Shipped(start))
    requires Data(p, root, data, START - 1 + Clusters(p)) && |data| == 512 * (START - 1 + Clusters(p))
    requires |fill| == 512 * (SECTORS - DATA_START) - |data| && img == head + fat + fat + data + fill
    ensures PartitionOk(p, img)
  {
    hide RootOk, TableOf, ParseBpb, DataBlock;
    assert img[..512] == head[..512];
    assert img[512 * RSVD..512 * (RSVD + FAT_SZ)] == fat;
    assert img[512 * (RSVD + FAT_SZ)..512 * DATA_START] == fat;
    forall j: nat | j < START - 1 + Clusters(p)
      ensures DataSector(img, j) == DataBlock(p, root, j)
    {
      assert img[512 * (DATA_START + j)..512 * (DATA_START + j) + 512] == data[512 * j..512 * j + 512];
    }
    FirstBlock(p, root);
  }

  lemma FirstBlock(p: Payload, root: seq<byte>)
    ensures DataBlock(p, root, 0) == root
  {
  }
}
