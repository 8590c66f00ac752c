/** Directory slots: 32 bytes each, and 8.3 names. */
module FatDir {
  import opened Bytes

  const SLOT: nat := 32
  const ATTR_ARCHIVE: nat := 0x20

  predicate IsSlot(e: seq<byte>) { |e| == SLOT }

  predicate IsFree(e: seq<byte>)
    requires IsSlot(e)
  {
    e[0] == 0x00 || e[0] == 0xE5
  }

  predicate IsLfn(e: seq<byte>)
    requires IsSlot(e)
  {
    e[11] % 16 == 15
  }

  predicate IsDir(e: seq<byte>)
    requires IsSlot(e)
  {
    e[11] / 16 % 2 == 1
  }

  function Name(e: seq<byte>): seq<byte>
    requires IsSlot(e)
  {
    e[..11]
  }

  function FirstCluster(e: seq<byte>): nat
    requires IsSlot(e)
  {
    0x1_0000 * LeDecode(e[20..22]) + LeDecode(e[26..28])
  }

  function FileSize(e: seq<byte>): nat
    requires IsSlot(e)
  {
    LeDecode(e[28..32])
  }

  /** A directory entry, field by field. */
  datatype RawEntry = RawEntry(name: seq<byte>, attr: byte, ntRes: byte, tenth: byte, crtTime: nat, crtDate: nat, accDate: nat,
                               firstHi: nat, wrtTime: nat, wrtDate: nat, firstLo: nat, size: nat)

  predicate RawOk(r: RawEntry) {
    && |r.name| == 11 && r.crtTime < 0x1_0000 && r.crtDate < 0x1_0000 && r.accDate < 0x1_0000 && r.firstHi < 0x1_0000
    && r.wrtTime < 0x1_0000 && r.wrtDate < 0x1_0000 && r.firstLo < 0x1_0000 && r.size < 0x1_0000_0000
  }

  /** `pack_entry`. */
  function PackEntry(r: RawEntry): (e: seq<byte>)
    requires |r.name| == 11
    ensures IsSlot(e)
  {
    r.name + [r.attr, r.ntRes, r.tenth] + LeEncode(r.crtTime, 2) + LeEncode(r.crtDate, 2) + LeEncode(r.accDate, 2)
    + LeEncode(r.firstHi, 2) + LeEncode(r.wrtTime, 2) + LeEncode(r.wrtDate, 2) + LeEncode(r.firstLo, 2) + LeEncode(r.size, 4)
  }

  /** The fields as `read_dir_raw` reads them. */
  function Unpack(e: seq<byte>): (r: RawEntry)
    requires IsSlot(e)
  {
    RawEntry(e[..11], e[11], e[12], e[13], LeDecode(e[14..16]), LeDecode(e[16..18]), LeDecode(e[18..20]), LeDecode(e[20..22]),
             LeDecode(e[22..24]), LeDecode(e[24..26]), LeDecode(e[26..28]), LeDecode(e[28..32]))
  }

  lemma PackedSlices(r: RawEntry)
    requires |r.name| == 11
    ensures var e := PackEntry(r);
            && e[..11] == r.name && e[11] == r.attr && e[12] == r.ntRes && e[13] == r.tenth
            && e[14..16] == LeEncode(r.crtTime, 2) && e[16..18] == LeEncode(r.crtDate, 2) && e[18..20] == LeEncode(r.accDate, 2)
            && e[20..22] == LeEncode(r.firstHi, 2) && e[22..24] == LeEncode(r.wrtTime, 2) && e[24..26] == LeEncode(r.wrtDate, 2)
            && e[26..28] == LeEncode(r.firstLo, 2) && e[28..32] == LeEncode(r.size, 4)
  {
    hide LeEncode;
  }

  lemma Le2(v: nat)
    requires v < 0x1_0000
    ensures LeDecode(LeEncode(v, 2)) == v
  {
    assert Pow256(2) == 0x1_0000;
    LeRoundTrip(v, 2);
  }

  lemma Le4(v: nat)
    requires v < 0x1_0000_0000
    ensures LeDecode(LeEncode(v, 4)) == v
  {
    assert Pow256(2) == 0x1_0000;
    assert Pow256(4) == 0x1_0000_0000;
    LeRoundTrip(v, 4);
  }

  /** Reading back a packed entry gives every field back, time stamps included. */
  lemma PackRoundTrip(r: RawEntry)
    requires RawOk(r)
    ensures Unpack(PackEntry(r)) == r
  {
    PackedSlices(r);
    hide PackEntry, LeEncode, LeDecode;
    Le2(r.crtTime);
    Le2(r.crtDate);
    Le2(r.accDate);
    Le2(r.firstHi);
    Le2(r.wrtTime);
    Le2(r.wrtDate);
    Le2(r.firstLo);
    Le4(r.size);
  }

  /** The entries the driver creates: all time stamps zero. */
  function Pack(name: seq<byte>, attr: byte, first: nat, size: nat): (e: seq<byte>)
    requires |name| == 11
    ensures IsSlot(e)
  {
    PackEntry(RawEntry(name, attr, 0, 0, 0, 0, 0, first / 0x1_0000, 0, 0, first % 0x1_0000, size))
  }

  lemma PackFields(name: seq<byte>, attr: byte, first: nat, size: nat)
    requires |name| == 11 && first < 0x1_0000_0000 && size < 0x1_0000_0000
    ensures var e := Pack(name, attr, first, size);
            Name(e) == name && e[11] == attr && FirstCluster(e) == first && FileSize(e) == size
  {
    PackRoundTrip(RawEntry(name, attr, 0, 0, 0, 0, 0, first / 0x1_0000, 0, 0, first % 0x1_0000, size));
    hide PackEntry, LeDecode;
  }

  /** Slot `i` of a cluster. */
  function SlotOf(b: seq<byte>, i: nat): (e: seq<byte>)
    requires SLOT * i + SLOT <= |b|
    ensures IsSlot(e)
  {
    b[SLOT * i..SLOT * i + SLOT]
  }

  /** An entry that names a file: neither free nor part of a long name. */
  predicate Names(e: seq<byte>, short: seq<byte>)
    requires IsSlot(e)
  {
    !IsFree(e) && !IsLfn(e) && Name(e) == short
  }

  function Upper(c: byte): byte {
    if 0x61 <= c <= 0x7A then c - 0x20 else c
  }

  function UpperAll(s: seq<byte>): (r: seq<byte>)
    ensures |r| == |s|
    ensures forall i | 0 <= i < |s| :: r[i] == Upper(s[i])
  {
    seq(|s|, i requires 0 <= i < |s| => Upper(s[i]))
  }

  /** `rfind('.')`: the position of the last dot, or -1. */
  function LastDot(s: seq<byte>): (d: int)
    ensures -1 <= d < |s|
    ensures d >= 0 ==> s[d] == 0x2E && forall i | d < i < |s| :: s[i] != 0x2E
    ensures d < 0 ==> forall i | 0 <= i < |s| :: s[i] != 0x2E
  {
    if s == [] then -1
    else if s[|s| - 1] == 0x2E then |s| - 1
    else LastDot(s[..|s| - 1])
  }

  function Take(s: seq<byte>, n: nat): (r: seq<byte>)
    ensures |r| <= n
  {
    if |s| <= n then s else s[..n]
  }

  function Pad(s: seq<byte>, n: nat): (r: seq<byte>)
    requires |s| <= n
    ensures |r| == n
  {
    s + seq(n - |s|, _ => 0x20)
  }

  /** `to_short_name` on ASCII names: upper case, split at the last dot that is not the first byte. */
  function ShortName(name: seq<byte>): (r: seq<byte>)
    ensures |r| == 11
  {
    var d := LastDot(name);
    if d > 0
    then Pad(Take(UpperAll(name[..d]), 8), 8) + Pad(Take(UpperAll(name[d + 1..]), 3), 3)
    else Pad(Take(UpperAll(name), 8), 8) + Pad([], 3)
  }

  /** The bytes in front of the first space. */
  function UpToSpace(s: seq<byte>): seq<byte> {
    if s == [] || s[0] == 0x20 then [] else [s[0]] + UpToSpace(s[1..])
  }

  /** `from_short_name`, as directory listings show a name. */
  function FromShort(short: seq<byte>): seq<byte>
    requires |short| == 11
  {
    var ext := UpToSpace(short[8..]);
    UpToSpace(short[..8]) + if ext == [] then [] else [0x2E] + ext
  }

  predicate NoneOf(s: seq<byte>, c: byte) { forall i | 0 <= i < |s| :: s[i] != c }

  lemma {:induction false} UpToPadded(s: seq<byte>, n: nat)
    requires |s| <= n && NoneOf(s, 0x20)
    ensures UpToSpace(Pad(s, n)) == s
    decreases n
  {
    if s == [] {
      assert n > 0 ==> Pad(s, n)[0] == 0x20;
    } else {
      UpToPadded(s[1..], n - 1);
      assert Pad(s, n)[1..] == Pad(s[1..], n - 1);
    }
  }

  lemma LastDotIs(s: seq<byte>, d: nat)
    requires d < |s| && s[d] == 0x2E && NoneOf(s[d + 1..], 0x2E)
    ensures LastDot(s) == d
  {
    hide LastDot;
    var rest := s[d + 1..];
    assert forall i | d < i < |s| :: s[i] == rest[i - d - 1];
  }

  /** A name of at most eight characters, a dot and at most three more is stored and shown as it was, in upper case. */
  lemma ShortRoundTrip(base: seq<byte>, ext: seq<byte>)
    requires 1 <= |base| <= 8 && 1 <= |ext| <= 3 && NoneOf(base, 0x20) && NoneOf(ext, 0x20) && NoneOf(ext, 0x2E)
    ensures FromShort(ShortName(base + [0x2E] + ext)) == UpperAll(base) + [0x2E] + UpperAll(ext)
  {
    var name := base + [0x2E] + ext;
    hide LastDot;
    assert name[..|base|] == base && name[|base| + 1..] == ext;
    LastDotIs(name, |base|);
    UpToPadded(UpperAll(base), 8);
    UpToPadded(UpperAll(ext), 3);
    var short := ShortName(name);
    assert short[..8] == Pad(UpperAll(base), 8) && short[8..] == Pad(UpperAll(ext), 3);
  }

  /** So is one without a dot. */
  lemma PlainRoundTrip(name: seq<byte>)
    requires 1 <= |name| <= 8 && NoneOf(name, 0x20) && NoneOf(name, 0x2E)
    ensures FromShort(ShortName(name)) == UpperAll(name)
  {
    hide LastDot;
    UpToPadded(UpperAll(name), 8);
    UpToPadded([], 3);
    var short := ShortName(name);
    assert short[..8] == Pad(UpperAll(name), 8) && short[8..] == Pad([], 3);
  }

  /** Names that differ in case only are the same name. */
  lemma CaseIgnored(name: seq<byte>, name': seq<byte>)
    requires UpperAll(name) == UpperAll(name')
    ensures ShortName(name) == ShortName(name')
  {
    SameSpan(name, name');
    forall i | 0 <= i < |name|
      ensures name[i] == 0x2E <==> name'[i] == 0x2E
    {
      assert UpperAll(name)[i] == UpperAll(name')[i];
    }
    var d := LastDot(name);
    assert LastDot(name') == d;
    hide LastDot;
    if d > 0 {
      assert UpperAll(name[..d]) == UpperAll(name)[..d] && UpperAll(name'[..d]) == UpperAll(name')[..d];
      assert UpperAll(name[d + 1..]) == UpperAll(name)[d + 1..] && UpperAll(name'[d + 1..]) == UpperAll(name')[d + 1..];
    }
  }

  lemma SameSpan(name: seq<byte>, name': seq<byte>)
    requires UpperAll(name) == UpperAll(name')
    ensures |name| == |name'|
  {
    assert |UpperAll(name)| == |name| && |UpperAll(name')| == |name'|;
  }
}
