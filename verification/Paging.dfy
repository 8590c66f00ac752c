/** 64-bit memory words seen as page-table entries, and frames seen as tables or as bytes. */
module Paging {
  import opened Bytes

  const PAGE_SIZE: nat := 4096
  const ENTRIES: nat := 512

  /** The flag bits of an entry: bits 0, 1, 2, 3-6, 7, 8-11 and 52-63. */
  datatype Flags = Flags(present: bool, writable: bool, user: bool, low: nat, huge: bool, avl: nat, high: nat)

  /** A 64-bit word split as an entry: its flags and the frame number in bits 12-51. */
  datatype Entry = Entry(flags: Flags, frame: nat)

  const NO_FLAGS := Flags(false, false, false, 0, false, 0, 0)
  const UNUSED := Entry(NO_FLAGS, 0)

  function Bit(b: bool): nat { if b then 1 else 0 }

  function LowBits(f: Flags): nat {
    Bit(f.present) + 2 * Bit(f.writable) + 4 * Bit(f.user) + 8 * f.low + 128 * Bit(f.huge) + 256 * f.avl
  }

  function LowFlags(w: nat, high: nat): Flags {
    Flags(w % 2 == 1, w / 2 % 2 == 1, w / 4 % 2 == 1, w / 8 % 16, w / 128 % 2 == 1, w / 256 % 16, high)
  }

  function EntryWord(e: Entry): nat {
    LowBits(e.flags) + 4096 * (e.frame + 0x100_0000_0000 * e.flags.high)
  }

  function WordEntry(w: nat): Entry {
    Entry(LowFlags(w % 4096, w / 4096 / 0x100_0000_0000), w / 4096 % 0x100_0000_0000)
  }

  lemma LowFlagsRoundTrip(w: nat, high: nat)
    requires w < 4096
    ensures LowBits(LowFlags(w, high)) == w
  {
    Halves(w);
    Upper(w);
    BitOf(w);
    BitOf(w / 2);
    BitOf(w / 4);
    BitOf(w / 128);
    Digits(w, w / 2, w / 4, w / 8, w / 128, w / 256);
    hide Bit;
  }

  lemma BitOf(v: nat)
    ensures Bit(v % 2 == 1) == v % 2
  {
  }

  lemma Digits(w: nat, a: nat, b: nat, c: nat, d: nat, e: nat)
    requires a == w / 2 && b == a / 2 && c == b / 2 && d == c / 16 && e == d / 2 && w < 4096
    ensures w % 2 + 2 * (a % 2) + 4 * (b % 2) + 8 * (c % 16) + 128 * (d % 2) + 256 * (e % 16) == w
  {
  }

  lemma Halves(w: nat)
    ensures w / 2 / 2 == w / 4 && w / 4 / 2 == w / 8
  {
  }

  lemma Upper(w: nat)
    ensures w / 8 / 16 == w / 128 && w / 128 / 2 == w / 256
  {
  }

  /** Splitting a word into flags and frame number loses nothing. */
  lemma WordRoundTrip(w: nat)
    ensures EntryWord(WordEntry(w)) == w
  {
    LowFlagsRoundTrip(w % 4096, w / 4096 / 0x100_0000_0000);
  }

  /** A frame: 512 words. */
  type FrameContent = s: seq<Entry> | |s| == ENTRIES witness ZeroFrame()

  /** What `write_bytes(frame, 0, 4096)` leaves behind. */
  function ZeroFrame(): (s: seq<Entry>)
    ensures |s| == ENTRIES
    ensures forall i | 0 <= i < ENTRIES :: s[i] == UNUSED
  {
    seq(ENTRIES, _ => UNUSED)
  }

  /** The same frame as 4096 bytes. */
  function WordsToBytes(s: seq<Entry>): (b: seq<byte>)
    ensures |b| == 8 * |s|
  {
    if s == [] then [] else LeEncode(EntryWord(s[0]), 8) + WordsToBytes(s[1..])
  }

  function BytesToWords(b: seq<byte>): (s: seq<Entry>)
    requires |b| % 8 == 0
    ensures 8 * |s| == |b|
  {
    if b == [] then [] else [WordEntry(LeDecode(b[..8]))] + BytesToWords(b[8..])
  }

  /** Bytes stored into a frame are read back unchanged. */
  lemma {:induction false} BytesRoundTrip(b: seq<byte>)
    requires |b| % 8 == 0
    ensures WordsToBytes(BytesToWords(b)) == b
  {
    hide EntryWord, WordEntry, LeEncode, LeDecode;
    if b != [] {
      var s := BytesToWords(b);
      FirstWord(b[..8]);
      BytesRoundTrip(b[8..]);
      assert s[1..] == BytesToWords(b[8..]);
      assert b == b[..8] + b[8..];
    }
  }

  lemma FirstWord(b: seq<byte>)
    requires |b| == 8
    ensures LeEncode(EntryWord(WordEntry(LeDecode(b))), 8) == b
  {
    WordRoundTrip(LeDecode(b));
    LeRoundTripBytes(b);
  }

  lemma ZeroWord(e: Entry)
    requires e == UNUSED
    ensures LeEncode(EntryWord(e), 8) == Zeros(8)
  {
    ZerosDecode(8);
    LeRoundTripBytes(Zeros(8));
  }

  /** A zeroed frame reads as zero bytes. */
  lemma {:induction false} ZeroWordsToBytes(s: seq<Entry>)
    requires forall e | e in s :: LeEncode(EntryWord(e), 8) == Zeros(8)
    ensures WordsToBytes(s) == Zeros(8 * |s|)
  {
    if s != [] {
      assert s[0] in s;
      ZeroWordsToBytes(s[1..]);
      assert Zeros(8 * |s|) == Zeros(8) + Zeros(8 * |s[1..]|);
    }
  }

  function FrameBytes(c: FrameContent): (b: seq<byte>)
    ensures |b| == PAGE_SIZE
  {
    WordsToBytes(c)
  }

  function ByteFrame(b: seq<byte>): (c: FrameContent)
    requires |b| == PAGE_SIZE
    ensures FrameBytes(c) == b
  {
    BytesRoundTrip(b);
    BytesToWords(b)
  }
}
