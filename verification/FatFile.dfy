/** File contents over a chain of clusters: the read and write loops against flat byte files. */
module FatFile {
  import opened Bytes
  import opened Disk

  /** The data of a chain: one block per cluster, all of the same size. */
  type Blocks = seq<seq<byte>>

  predicate Sized(blocks: Blocks, b: nat) {
    b > 0 && forall i | 0 <= i < |blocks| :: |blocks[i]| == b
  }

  /** The file as one array of bytes. */
  function Flatten(blocks: Blocks, b: nat): (r: seq<byte>)
    requires Sized(blocks, b)
    ensures |r| == |blocks| * b
  {
    if blocks == [] then [] else
    var n := |blocks| - 1;
    assert |blocks| * b == n * b + b;
    Flatten(blocks[..n], b) + blocks[n]
  }

  lemma MulMono(i: nat, n: nat, b: nat)
    requires i < n
    ensures i * b + b <= n * b
  {
    assert (i + 1) * b <= n * b;
  }

  lemma {:induction false} FlattenAt(blocks: Blocks, b: nat, i: nat, j: nat)
    requires Sized(blocks, b) && i < |blocks| && j < b
    ensures i * b + j < |blocks| * b
    ensures Flatten(blocks, b)[i * b + j] == blocks[i][j]
  {
    MulMono(i, |blocks|, b);
    var n := |blocks| - 1;
    if i < n {
      FlattenAt(blocks[..n], b, i, j);
    }
  }

  /** The block a position falls into. */
  function Index(pos: nat, b: nat): nat
    requires b > 0
  {
    pos / b
  }

  /** Its place in that block. */
  function Within(pos: nat, b: nat): (r: nat)
    requires b > 0
    ensures r < b
  {
    pos % b
  }

  /** Where a position falls. */
  lemma Position(pos: nat, b: nat)
    requires b > 0
    ensures pos == Index(pos, b) * b + Within(pos, b)
  {
  }

  lemma DivBelow(pos: nat, n: nat, b: nat)
    requires b > 0 && pos < n * b
    ensures Index(pos, b) < n
  {
    hide Index, Within;
    Position(pos, b);
    QuotientBelow(Index(pos, b), n, b);
  }

  lemma QuotientBelow(q: nat, n: nat, b: nat)
    requires q * b < n * b
    ensures q < n
  {
  }

  lemma DivUnique(q: nat, r: nat, b: nat)
    requires r < b
    ensures Index(q * b + r, b) == q && Within(q * b + r, b) == r
  {
    hide Index, Within;
    var n := q * b + r;
    var q', r' := Index(n, b), Within(n, b);
    Position(n, b);
    if q' < q {
      MulMono(q', q, b);
    } else if q' > q {
      MulMono(q, q', b);
    }
  }

  /** Writing inside one block is writing at that place of the flat file. */
  lemma FlattenPut(blocks: Blocks, b: nat, i: nat, j: nat, x: seq<byte>)
    requires Sized(blocks, b) && i < |blocks| && j + |x| <= b
    ensures i * b + j + |x| <= |blocks| * b
    ensures Sized(blocks[i := Put(blocks[i], j, x)], b)
    ensures Flatten(blocks[i := Put(blocks[i], j, x)], b) == Put(Flatten(blocks, b), i * b + j, x)
  {
    hide Index, Within;
    MulMono(i, |blocks|, b);
    var blocks' := blocks[i := Put(blocks[i], j, x)];
    hide Flatten;
    var flat, flat' := Flatten(blocks, b), Flatten(blocks', b);
    forall k | 0 <= k < |blocks| * b
      ensures flat'[k] == Put(flat, i * b + j, x)[k]
    {
      Position(k, b);
      DivBelow(k, |blocks|, b);
      FlattenPutAt(blocks, b, i, j, x, Index(k, b), Within(k, b));
    }
  }

  lemma FlattenPutAt(blocks: Blocks, b: nat, i: nat, j: nat, x: seq<byte>, q: nat, r: nat)
    requires Sized(blocks, b) && i < |blocks| && j + |x| <= b && q < |blocks| && r < b
    requires i * b + j + |x| <= |blocks| * b && q * b + r < |blocks| * b
    ensures Sized(blocks[i := Put(blocks[i], j, x)], b)
    ensures Flatten(blocks[i := Put(blocks[i], j, x)], b)[q * b + r] == Put(Flatten(blocks, b), i * b + j, x)[q * b + r]
  {
    var blocks' := blocks[i := Put(blocks[i], j, x)];
    FlattenAt(blocks, b, q, r);
    FlattenAt(blocks', b, q, r);
    hide Flatten;
    if q < i {
      MulMono(q, i, b);
    } else if q > i {
      MulMono(i, q, b);
    }
    PutAt(Flatten(blocks, b), i * b + j, x, q * b + r);
  }

  lemma PutAt(flat: seq<byte>, at: nat, x: seq<byte>, k: nat)
    requires at + |x| <= |flat| && k < |flat|
    ensures Put(flat, at, x)[k] == if at <= k < at + |x| then x[k - at] else flat[k]
  {
  }

  function Min(a: nat, b: nat): nat { if a < b then a else b }

  /** The read loop from `pos`: cluster index `pos / b`, offset `pos % b`. */
  function ReadLoop(blocks: Blocks, b: nat, pos: nat, end: nat): (r: seq<byte>)
    requires Sized(blocks, b)
    decreases end - pos
  {
    hide Index, Within;
    if pos >= end || Index(pos, b) >= |blocks| then []
    else
      var take := Min(end - pos, b - Within(pos, b));
      Get(blocks[Index(pos, b)], Within(pos, b), take) + ReadLoop(blocks, b, pos + take, end)
  }

  lemma ReadStep(blocks: Blocks, b: nat, pos: nat, end: nat)
    requires Sized(blocks, b) && pos < end && Index(pos, b) < |blocks|
    ensures var take := Min(end - pos, b - Within(pos, b));
            ReadLoop(blocks, b, pos, end) == Get(blocks[Index(pos, b)], Within(pos, b), take) + ReadLoop(blocks, b, pos + take, end)
  {
    hide Index, Within;
  }

  lemma ReadEnds(blocks: Blocks, b: nat, pos: nat, end: nat)
    requires Sized(blocks, b) && (pos >= end || Index(pos, b) >= |blocks|)
    ensures ReadLoop(blocks, b, pos, end) == []
  {
    hide Index, Within;
  }

  lemma Beyond(pos: nat, n: nat, b: nat)
    requires b > 0
    ensures Index(pos, b) >= n <==> pos >= n * b
  {
    hide Index, Within;
    Position(pos, b);
    var q := Index(pos, b);
    if q < n {
      MulMono(q, n, b);
    } else if q > n {
      MulMono(n, q, b);
    }
  }

  /** `read` returns exactly the slice of the flat file, cut where the chain ends. */
  lemma {:induction false} ReadIsSlice(blocks: Blocks, b: nat, pos: nat, end: nat)
    requires Sized(blocks, b)
    ensures var e := Min(end, |blocks| * b);
            ReadLoop(blocks, b, pos, end) == if pos < e then Flatten(blocks, b)[pos..e] else []
    decreases end - pos
  {
    hide Index, Within, ReadLoop, Flatten;
    var total := |blocks| * b;
    Beyond(pos, |blocks|, b);
    if pos >= end || pos >= total {
      ReadEnds(blocks, b, pos, end);
    } else {
      var i, j := Index(pos, b), Within(pos, b);
      var take := Min(end - pos, b - j);
      ReadStep(blocks, b, pos, end);
      ReadIsSlice(blocks, b, pos + take, end);
      Position(pos, b);
      SliceOfBlock(blocks, b, i, j, take);
      JoinSlices(Flatten(blocks, b), pos, pos + take, Min(end, total));
    }
  }

  lemma JoinSlices(s: seq<byte>, a: nat, m: nat, e: nat)
    requires a <= m <= e <= |s|
    ensures s[a..m] + (if m < e then s[m..e] else []) == s[a..e]
  {
  }

  lemma SliceOfBlock(blocks: Blocks, b: nat, i: nat, j: nat, n: nat)
    requires Sized(blocks, b) && i < |blocks| && j + n <= b
    ensures i * b + j + n <= |blocks| * b
    ensures Get(blocks[i], j, n) == Flatten(blocks, b)[i * b + j..i * b + j + n]
  {
    MulMono(i, |blocks|, b);
    forall k | 0 <= k < n
      ensures Get(blocks[i], j, n)[k] == Flatten(blocks, b)[i * b + j + k]
    {
      FlattenAt(blocks, b, i, j + k);
    }
  }

  /** The write loop from `pos`: cluster index `(pos - offset) / b`, but offset `pos % b`. */
  function WriteLoop(blocks: Blocks, b: nat, offset: nat, buf: seq<byte>, pos: nat): (r: Blocks)
    requires Sized(blocks, b) && offset <= pos
    ensures Sized(r, b) && |r| == |blocks|
    decreases offset + |buf| - pos
  {
    hide Index, Within;
    var end := offset + |buf|;
    var i := Index(pos - offset, b);
    if pos >= end || i >= |blocks| then blocks
    else
      var take := Min(end - pos, b - Within(pos, b));
      var part := buf[pos - offset..pos - offset + take];
      WriteLoop(blocks[i := Put(blocks[i], Within(pos, b), part)], b, offset, buf, pos + take)
  }

  /** The cases in which the write loop's cluster index is the read loop's. */
  predicate GoodWrite(b: nat, offset: nat, len: nat) {
    offset == 0 || offset + len <= b
  }

  /** Positions at which the write loop picks a cluster. */
  predicate Visited(b: nat, offset: nat, pos: nat)
    requires b > 0
  {
    pos == offset || Within(pos, b) == 0
  }

  /** For a nonempty buffer, the two indices agree everywhere exactly in the good cases. */
  lemma IndexAgrees(b: nat, offset: nat, len: nat)
    requires b > 0 && len > 0
    ensures (forall pos: nat | offset <= pos < offset + len && Visited(b, offset, pos) :: Index(pos - offset, b) == Index(pos, b))
       <==> GoodWrite(b, offset, len)
  {
    hide Index, Within;
    if GoodWrite(b, offset, len) {
      forall pos: nat | offset <= pos < offset + len && Visited(b, offset, pos)
        ensures Index(pos - offset, b) == Index(pos, b)
      {
        SameIndex(b, offset, len, pos);
      }
    } else if offset >= b {
      assert Visited(b, offset, offset);
      DivPositive(offset, b);
      SmallMod(offset - offset, b);
    } else {
      DivUnique(1, 0, b);
      SmallMod(b - offset, b);
      assert Visited(b, offset, b);
    }
  }

  lemma DivPositive(n: nat, b: nat)
    requires b > 0 && n >= b
    ensures Index(n, b) >= 1
  {
    Position(n, b);
  }

  /** In the good cases `write` is a flat overwrite. */
  lemma GoodWriteIsOverwrite(blocks: Blocks, b: nat, offset: nat, buf: seq<byte>)
    requires Sized(blocks, b) && offset + |buf| <= |blocks| * b && GoodWrite(b, offset, |buf|)
    ensures Flatten(WriteLoop(blocks, b, offset, buf, offset), b) == Put(Flatten(blocks, b), offset, buf)
  {
    assert buf[0..] == buf;
    GoodWriteFrom(blocks, b, offset, buf, offset);
  }

  lemma {:induction false} GoodWriteFrom(blocks: Blocks, b: nat, offset: nat, buf: seq<byte>, pos: nat)
    requires Sized(blocks, b) && offset <= pos <= offset + |buf| <= |blocks| * b && GoodWrite(b, offset, |buf|)
    ensures Flatten(WriteLoop(blocks, b, offset, buf, pos), b) == Put(Flatten(blocks, b), pos, buf[pos - offset..])
    decreases offset + |buf| - pos
  {
    hide Flatten, WriteLoop, GoodWrite, Index, Within;
    var flat := Flatten(blocks, b);
    if pos == offset + |buf| {
      WriteDone(blocks, b, offset, buf, pos);
      assert Put(flat, pos, []) == flat;
    } else {
      SameIndex(b, offset, |buf|, pos);
      var next, take := WriteStep(blocks, b, offset, buf, pos);
      var part := buf[pos - offset..pos - offset + take];
      GoodWriteFrom(next, b, offset, buf, pos + take);
      PutSplit(flat, pos, part, buf[pos + take - offset..]);
      assert part + buf[pos + take - offset..] == buf[pos - offset..];
    }
  }

  lemma WriteDone(blocks: Blocks, b: nat, offset: nat, buf: seq<byte>, pos: nat)
    requires Sized(blocks, b) && offset + |buf| <= pos
    ensures WriteLoop(blocks, b, offset, buf, pos) == blocks
  {
  }

  /** One iteration at a position where the index is right. */
  lemma WriteStep(blocks: Blocks, b: nat, offset: nat, buf: seq<byte>, pos: nat) returns (next: Blocks, take: nat)
    requires Sized(blocks, b) && offset <= pos < offset + |buf| <= |blocks| * b
    requires Index(pos - offset, b) == Index(pos, b)
    ensures 0 < take <= offset + |buf| - pos
    ensures Sized(next, b) && |next| == |blocks|
    ensures WriteLoop(blocks, b, offset, buf, pos) == WriteLoop(next, b, offset, buf, pos + take)
    ensures Flatten(next, b) == Put(Flatten(blocks, b), pos, buf[pos - offset..pos - offset + take])
  {
    hide Index, Within;
    var i, j := Index(pos, b), Within(pos, b);
    Position(pos, b);
    DivBelow(pos, |blocks|, b);
    take := Min(offset + |buf| - pos, b - j);
    var part := buf[pos - offset..pos - offset + take];
    next := blocks[i := Put(blocks[i], j, part)];
    hide Flatten;
    FlattenPut(blocks, b, i, j, part);
  }

  lemma SameIndex(b: nat, offset: nat, len: nat, pos: nat)
    requires b > 0 && GoodWrite(b, offset, len) && offset <= pos < offset + len
    ensures Index(pos - offset, b) == Index(pos, b)
  {
    hide Index, Within;
    if offset > 0 {
      SmallMod(pos - offset, b);
      SmallMod(pos, b);
    }
  }

  /** `write` overwrites correctly for every file and buffer of this size. */
  ghost predicate AlwaysOverwrites(b: nat, offset: nat, len: nat) {
    forall blocks: Blocks, buf: seq<byte> | Sized(blocks, b) && |buf| == len && offset + len <= |blocks| * b ::
      Flatten(WriteLoop(blocks, b, offset, buf, offset), b) == Put(Flatten(blocks, b), offset, buf)
  }

  /** The good cases are exactly the ones in which `write` is correct. */
  lemma WriteCorrectIff(b: nat, offset: nat, len: nat)
    requires b > 0 && len > 0
    ensures AlwaysOverwrites(b, offset, len) <==> GoodWrite(b, offset, len)
  {
    if GoodWrite(b, offset, len) {
      forall blocks: Blocks, buf: seq<byte> | Sized(blocks, b) && |buf| == len && offset + len <= |blocks| * b
        ensures Flatten(WriteLoop(blocks, b, offset, buf, offset), b) == Put(Flatten(blocks, b), offset, buf)
      {
        GoodWriteIsOverwrite(blocks, b, offset, buf);
      }
    } else {
      var blocks: Blocks := seq(offset + len, _ => Zeros(b));
      var buf: seq<byte> := seq(len, _ => 1);
      Enough(offset + len, b);
      BadWrite(blocks, b, offset, buf);
    }
  }

  lemma Enough(n: nat, b: nat)
    requires b > 0
    ensures n <= n * b
  {
  }

  /** Otherwise a file of zeros gets a one in front of the offset. */
  lemma BadWrite(blocks: Blocks, b: nat, offset: nat, buf: seq<byte>)
    requires Sized(blocks, b) && offset + |buf| <= |blocks| * b && |buf| > 0 && !GoodWrite(b, offset, |buf|)
    requires forall i, j | 0 <= i < |blocks| && 0 <= j < b :: blocks[i][j] == 0
    requires forall i | 0 <= i < |buf| :: buf[i] == 1
    ensures Flatten(WriteLoop(blocks, b, offset, buf, offset), b) != Put(Flatten(blocks, b), offset, buf)
  {
    hide WriteLoop, Flatten, GoodWrite, Index, Within;
    BadCase(b, offset, |buf|);
    NonEmpty(|blocks|, b, offset + |buf|);
    var r := WriteLoop(blocks, b, offset, buf, offset);
    var k := Stray(b, offset);
    if offset >= b {
      StrayFar(blocks, b, offset, buf);
    } else {
      StrayNear(blocks, b, offset, buf);
    }
    FirstBlock(r, b, k);
    FirstBlock(blocks, b, k);
    PutAt(Flatten(blocks, b), offset, buf, k);
  }

  lemma BadCase(b: nat, offset: nat, len: nat)
    requires !GoodWrite(b, offset, len)
    ensures offset > 0 && offset + len > b
  {
  }

  lemma NonEmpty(n: nat, b: nat, total: nat)
    requires 0 < total <= n * b
    ensures n > 0
  {
  }

  lemma FirstBlock(blocks: Blocks, b: nat, k: nat)
    requires Sized(blocks, b) && |blocks| > 0 && k < b
    ensures k < |blocks| * b && Flatten(blocks, b)[k] == blocks[0][k]
  {
    FlattenAt(blocks, b, 0, k);
  }

  /** The place in the first cluster that a bad write hits although it lies before the offset. */
  function Stray(b: nat, offset: nat): (k: nat)
    requires b > 0 && offset > 0
    ensures k < b && k < offset
  {
    if offset >= b then Within(offset, b) else 0
  }

  lemma StrayFar(blocks: Blocks, b: nat, offset: nat, buf: seq<byte>)
    requires Sized(blocks, b) && |blocks| > 0 && |buf| > 0 && offset >= b
    requires forall i | 0 <= i < |buf| :: buf[i] == 1
    ensures WriteLoop(blocks, b, offset, buf, offset)[0][Within(offset, b)] == 1
  {
    hide WriteLoop, Index, Within;
    FirstStep(blocks, b, offset, buf);
    var take := Min(|buf|, b - Within(offset, b));
    var next := blocks[0 := Put(blocks[0], Within(offset, b), buf[0..take])];
    OnesStay(next, b, offset, buf, offset + take, 0, Within(offset, b));
  }

  lemma StrayNear(blocks: Blocks, b: nat, offset: nat, buf: seq<byte>)
    requires Sized(blocks, b) && |blocks| > 0 && 0 < offset < b < offset + |buf|
    requires forall i | 0 <= i < |buf| :: buf[i] == 1
    ensures WriteLoop(blocks, b, offset, buf, offset)[0][0] == 1
  {
    hide WriteLoop, Put, Index, Within;
    FirstStep(blocks, b, offset, buf);
    SmallMod(offset, b);
    var next := blocks[0 := Put(blocks[0], offset, buf[0..b - offset])];
    SecondStep(next, b, offset, buf);
    var take := Min(offset + |buf| - b, b);
    var last := next[0 := Put(next[0], 0, buf[b - offset..b - offset + take])];
    OnesStay(last, b, offset, buf, b + take, 0, 0);
  }

  lemma SmallMod(n: nat, b: nat)
    requires n < b
    ensures Within(n, b) == n && Index(n, b) == 0
  {
  }

  lemma FirstStep(blocks: Blocks, b: nat, offset: nat, buf: seq<byte>)
    requires Sized(blocks, b) && |blocks| > 0 && |buf| > 0 && forall i | 0 <= i < |buf| :: buf[i] == 1
    ensures var take := Min(|buf|, b - Within(offset, b));
            var next := blocks[0 := Put(blocks[0], Within(offset, b), buf[0..take])];
            && take > 0 && Sized(next, b) && next[0][Within(offset, b)] == 1
            && WriteLoop(blocks, b, offset, buf, offset) == WriteLoop(next, b, offset, buf, offset + take)
  {
    hide Index, Within;
    SmallMod(0, b);
    var take := Min(|buf|, b - Within(offset, b));
    var next := blocks[0 := Put(blocks[0], Within(offset, b), buf[0..take])];
    assert WriteLoop(blocks, b, offset, buf, offset) == WriteLoop(next, b, offset, buf, offset + take);
  }

  /** The second iteration of a write that starts inside the first cluster goes to the first cluster again. */
  lemma SecondStep(blocks: Blocks, b: nat, offset: nat, buf: seq<byte>)
    requires Sized(blocks, b) && |blocks| > 0 && 0 < offset < b < offset + |buf|
    requires forall i | 0 <= i < |buf| :: buf[i] == 1
    ensures var take := Min(offset + |buf| - b, b);
            var next := blocks[0 := Put(blocks[0], 0, buf[b - offset..b - offset + take])];
            && take > 0 && Sized(next, b) && next[0][0] == 1
            && WriteLoop(blocks, b, offset, buf, b) == WriteLoop(next, b, offset, buf, b + take)
  {
    hide Index, Within;
    SmallMod(b - offset, b);
    DivUnique(1, 0, b);
    var take := Min(offset + |buf| - b, b);
    var next := blocks[0 := Put(blocks[0], 0, buf[b - offset..b - offset + take])];
    assert WriteLoop(blocks, b, offset, buf, b) == WriteLoop(next, b, offset, buf, b + take);
  }

  /** Writing ones never clears a one. */
  lemma {:induction false} OnesStay(blocks: Blocks, b: nat, offset: nat, buf: seq<byte>, pos: nat, i: nat, j: nat)
    requires Sized(blocks, b) && offset <= pos && i < |blocks| && j < b && blocks[i][j] == 1
    requires forall k | 0 <= k < |buf| :: buf[k] == 1
    ensures WriteLoop(blocks, b, offset, buf, pos)[i][j] == 1
    decreases offset + |buf| - pos
  {
    hide Index, Within;
    var end := offset + |buf|;
    var k := Index(pos - offset, b);
    if pos < end && k < |blocks| {
      var take := Min(end - pos, b - Within(pos, b));
      var part := buf[pos - offset..pos - offset + take];
      OnesStay(blocks[k := Put(blocks[k], Within(pos, b), part)], b, offset, buf, pos + take, i, j);
    }
  }
}
