/** The ELF headers the loader reads: parsing, and what an encoder of the format would have written. */
module ElfFormat {
  import opened Bytes
  import opened ElfImage
  import opened Wrappers

  function Field(file: seq<byte>, at: nat, width: nat): nat
    requires at + width <= |file|
  {
    LeDecode(file[at..at + width])
  }

  /** The header checks of `parse_elf_segments`, in its order. */
  function HeaderError(file: seq<byte>): string {
    if |file| < 64 then "ELF too small"
    else if file[0..4] != [0x7F, 0x45, 0x4C, 0x46] then "bad ELF magic"
    else if file[4] != 2 then "not ELF64"
    else if file[5] != 1 then "not little-endian"
    else if Field(file, 16, 2) != 2 then "not ET_EXEC"
    else if Field(file, 18, 2) != 0x3E then "not x86_64"
    else ""
  }

  function HeaderOffset(file: seq<byte>, i: nat): nat
    requires |file| >= 64
  {
    Field(file, 32, 8) + i * Field(file, 54, 2)
  }

  function SegmentAt(file: seq<byte>, off: nat): Segment
    requires off + 56 <= |file|
  {
    Segment(Field(file, off + 16, 8), Field(file, off + 8, 8), Field(file, off + 32, 8), Field(file, off + 40, 8),
            Field(file, off + 4, 4))
  }

  /** The loadable segments of program headers i .. n, stopping at the first header that leaves the file. */
  function LoadSegments(file: seq<byte>, i: nat, n: nat): seq<Segment>
    requires |file| >= 64
    decreases n - i
  {
    if i >= n || HeaderOffset(file, i) + 56 > |file| then []
    else
      (if Field(file, HeaderOffset(file, i), 4) == 1 then [SegmentAt(file, HeaderOffset(file, i))] else [])
      + LoadSegments(file, i + 1, n)
  }

  function ParseElf(file: seq<byte>): Result<(nat, seq<Segment>)> {
    if HeaderError(file) != "" then Err(HeaderError(file))
    else Ok((Field(file, 24, 8), LoadSegments(file, 0, Field(file, 56, 2))))
  }

  /** The header loop of `parse_elf_segments`. */
  method ParseElfSegments(file: seq<byte>) returns (r: Result<(nat, seq<Segment>)>)
    ensures r == ParseElf(file)
  {
    hide Field;
    if HeaderError(file) != "" {
      return Err(HeaderError(file));
    }
    assert |file| >= 64;
    hide HeaderError;
    var n := Field(file, 56, 2);
    var segs: seq<Segment> := [];
    var i := 0;
    while i < n
      invariant 0 <= i <= n
      invariant segs + LoadSegments(file, i, n) == LoadSegments(file, 0, n)
    {
      var off := HeaderOffset(file, i);
      if off + 56 > |file| {
        break;
      }
      if Field(file, off, 4) == 1 {
        segs := segs + [SegmentAt(file, off)];
      }
      i := i + 1;
    }
    assert LoadSegments(file, i, n) == [] && segs + [] == segs;
    return Ok((Field(file, 24, 8), segs));
  }

  /** The header fields the loader looks at; `fill` is what it ignores. */
  datatype ElfHeader = ElfHeader(entry: nat, phoff: nat, phentsize: nat, phnum: nat, fill: seq<byte>)

  /** A program header, with the two fields the loader ignores. */
  datatype ProgramHeader = ProgramHeader(kind: nat, segment: Segment, paddr: nat, align: nat)

  predicate HeaderFits(h: ElfHeader) {
    h.entry < Pow256(8) && h.phoff < Pow256(8) && h.phentsize < Pow256(2) && h.phnum < Pow256(2) && |h.fill| == 34
  }

  predicate SegmentFits(p: ProgramHeader) {
    && p.kind < Pow256(4) && p.segment.flags < Pow256(4) && p.segment.offset < Pow256(8) && p.segment.vaddr < Pow256(8)
    && p.segment.filesz < Pow256(8) && p.segment.memsz < Pow256(8)
  }

  /** The 64 bytes of a little-endian ELF64 executable for x86-64. */
  function EncodeHeader(h: ElfHeader): (b: seq<byte>)
    requires |h.fill| == 34
    ensures |b| == 64
  {
    [0x7F, 0x45, 0x4C, 0x46, 2, 1] + h.fill[..10] + LeEncode(2, 2) + LeEncode(0x3E, 2) + h.fill[10..14] + LeEncode(h.entry, 8)
    + LeEncode(h.phoff, 8) + h.fill[14..28] + LeEncode(h.phentsize, 2) + LeEncode(h.phnum, 2) + h.fill[28..]
  }

  /** The 56 bytes of a program header: type, flags, offset, virtual and physical address, sizes, alignment. */
  function EncodeProgram(p: ProgramHeader): (b: seq<byte>)
    ensures |b| == 56
  {
    LeEncode(p.kind, 4) + LeEncode(p.segment.flags, 4) + LeEncode(p.segment.offset, 8) + LeEncode(p.segment.vaddr, 8)
    + LeEncode(p.paddr, 8) + LeEncode(p.segment.filesz, 8) + LeEncode(p.segment.memsz, 8) + LeEncode(p.align, 8)
  }

  /** The segments of type 1, in order. */
  function Loadable(ps: seq<ProgramHeader>): seq<Segment> {
    if ps == [] then [] else (if ps[0].kind == 1 then [ps[0].segment] else []) + Loadable(ps[1..])
  }

  /** The file starts with the header, and its table lists the program headers, up to the first that leaves the file. */
  predicate Encodes(file: seq<byte>, h: ElfHeader, ps: seq<ProgramHeader>) {
    && HeaderFits(h) && |ps| <= h.phnum && |file| >= 64 && file[..64] == EncodeHeader(h)
    && (|ps| < h.phnum ==> h.phoff + |ps| * h.phentsize + 56 > |file|)
    && forall i | 0 <= i < |ps| :: SegmentFits(ps[i]) && ProgramAt(file, h.phoff + i * h.phentsize, ps[i])
  }

  predicate ProgramAt(file: seq<byte>, off: nat, p: ProgramHeader) {
    off + 56 <= |file| && file[off..off + 56] == EncodeProgram(p)
  }

  /** A field is where its bytes are. */
  lemma FieldIs(file: seq<byte>, base: nat, b: seq<byte>, at: nat, v: nat, width: nat)
    requires base + |b| <= |file| && file[base..base + |b|] == b
    requires at + width <= |b| && b[at..at + width] == LeEncode(v, width) && v < Pow256(width)
    ensures Field(file, base + at, width) == v
  {
    LeRoundTrip(v, width);
    hide LeEncode, LeDecode, Pow256;
    var part := file[base..base + |b|];
    forall j | at <= j < at + width
      ensures file[base + j] == b[j]
    {
      assert part[j] == b[j];
    }
    assert file[base + at..base + at + width] == b[at..at + width];
  }

  lemma ProgramSlices(p: ProgramHeader)
    ensures var b, g := EncodeProgram(p), p.segment;
            && b[0..4] == LeEncode(p.kind, 4) && b[4..8] == LeEncode(g.flags, 4) && b[8..16] == LeEncode(g.offset, 8)
            && b[16..24] == LeEncode(g.vaddr, 8) && b[32..40] == LeEncode(g.filesz, 8) && b[40..48] == LeEncode(g.memsz, 8)
  {
    hide LeEncode;
  }

  lemma ProgramParses(file: seq<byte>, off: nat, p: ProgramHeader)
    requires SegmentFits(p) && ProgramAt(file, off, p)
    ensures Field(file, off, 4) == p.kind && SegmentAt(file, off) == p.segment
  {
    ProgramSlices(p);
    hide EncodeProgram, LeEncode, Pow256, Field;
    var b, g := EncodeProgram(p), p.segment;
    FieldIs(file, off, b, 0, p.kind, 4);
    FieldIs(file, off, b, 4, g.flags, 4);
    FieldIs(file, off, b, 8, g.offset, 8);
    FieldIs(file, off, b, 16, g.vaddr, 8);
    FieldIs(file, off, b, 32, g.filesz, 8);
    FieldIs(file, off, b, 40, g.memsz, 8);
  }

  lemma HeaderSlices(h: ElfHeader)
    requires |h.fill| == 34
    ensures var b := EncodeHeader(h);
            && b[..6] == [0x7F, 0x45, 0x4C, 0x46, 2, 1] && b[16..18] == LeEncode(2, 2) && b[18..20] == LeEncode(0x3E, 2)
            && b[24..32] == LeEncode(h.entry, 8) && b[32..40] == LeEncode(h.phoff, 8)
            && b[54..56] == LeEncode(h.phentsize, 2) && b[56..58] == LeEncode(h.phnum, 2)
  {
    hide LeEncode;
  }

  lemma HeaderParses(file: seq<byte>, h: ElfHeader)
    requires HeaderFits(h) && |file| >= 64 && file[..64] == EncodeHeader(h)
    ensures HeaderError(file) == "" && Field(file, 24, 8) == h.entry && Field(file, 56, 2) == h.phnum
    ensures Field(file, 32, 8) == h.phoff && Field(file, 54, 2) == h.phentsize
  {
    HeaderSlices(h);
    MagicParses(file, EncodeHeader(h));
    assert Pow256(2) == 0x1_0000;
    hide EncodeHeader, LeEncode, Pow256, Field;
    var b := EncodeHeader(h);
    HeaderField(file, b, 16, 2, 2);
    HeaderField(file, b, 18, 0x3E, 2);
    HeaderField(file, b, 24, h.entry, 8);
    HeaderField(file, b, 32, h.phoff, 8);
    HeaderField(file, b, 54, h.phentsize, 2);
    HeaderField(file, b, 56, h.phnum, 2);
  }

  lemma HeaderField(file: seq<byte>, b: seq<byte>, at: nat, v: nat, width: nat)
    requires |b| == 64 <= |file| && file[..64] == b
    requires at + width <= 64 && b[at..at + width] == LeEncode(v, width) && v < Pow256(width)
    ensures Field(file, at, width) == v
  {
    hide Field;
    assert file[0..64] == file[..64];
    FieldIs(file, 0, b, at, v, width);
  }

  lemma MagicParses(file: seq<byte>, b: seq<byte>)
    requires |b| == 64 <= |file| && file[..64] == b && b[..6] == [0x7F, 0x45, 0x4C, 0x46, 2, 1]
    ensures file[0..4] == [0x7F, 0x45, 0x4C, 0x46] && file[4] == 2 && file[5] == 1
  {
    assert forall i | 0 <= i < 6 :: file[i] == b[..6][i];
  }

  lemma ProgramFits(file: seq<byte>, off: nat, p: ProgramHeader)
    requires ProgramAt(file, off, p)
    ensures off + 56 <= |file|
  {
  }

  lemma {:induction false} ProgramsParse(file: seq<byte>, h: ElfHeader, ps: seq<ProgramHeader>, i: nat)
    requires Encodes(file, h, ps) && i <= |ps|
    requires Field(file, 32, 8) == h.phoff && Field(file, 54, 2) == h.phentsize
    ensures LoadSegments(file, i, h.phnum) == Loadable(ps[i..])
    decreases |ps| - i
  {
    hide Field, SegmentAt, SegmentFits, EncodeProgram, EncodeHeader, HeaderFits, ProgramAt;
    assert HeaderOffset(file, i) == h.phoff + i * h.phentsize;
    hide HeaderOffset;
    if i < |ps| {
      assert ProgramAt(file, h.phoff + i * h.phentsize, ps[i]);
      ProgramFits(file, HeaderOffset(file, i), ps[i]);
      ProgramParses(file, HeaderOffset(file, i), ps[i]);
      hide Encodes;
      ProgramsParse(file, h, ps, i + 1);
      assert ps[i..][1..] == ps[i + 1..];
    }
  }

  /** The files that are accepted at all. */
  lemma AcceptsIff(file: seq<byte>)
    ensures ParseElf(file).Ok? <==>
            && |file| >= 64 && file[..6] == [0x7F, 0x45, 0x4C, 0x46, 2, 1]
            && file[16] == 2 && file[17] == 0 && file[18] == 0x3E && file[19] == 0
  {
    if |file| >= 64 {
      TwoBytes(file, 16);
      TwoBytes(file, 18);
      assert file[..6] == file[0..4] + [file[4], file[5]];
    }
  }

  lemma TwoBytes(file: seq<byte>, at: nat)
    requires at + 2 <= |file|
    ensures Field(file, at, 2) == file[at] as int + 256 * (file[at + 1] as int)
  {
    var b := file[at..at + 2];
    assert b[1..][1..] == [] && LeDecode(b[1..]) == b[1] as int;
  }

  /** Parsing a file that an encoder has written gives back the entry point and the loadable segments, in order,
      wherever the table lies, whatever its stride, and whatever else is in the file. */
  lemma ParseEncoded(file: seq<byte>, h: ElfHeader, ps: seq<ProgramHeader>)
    requires Encodes(file, h, ps)
    ensures ParseElf(file) == Ok((h.entry, Loadable(ps)))
  {
    HeaderParses(file, h);
    ProgramsParse(file, h, ps, 0);
    hide Field, HeaderError, LoadSegments, Encodes;
    assert ps[0..] == ps;
  }
}
