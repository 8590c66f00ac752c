/** What an ELF image should look like in memory, byte by byte, and the per-page copy of the loader. */
module ElfImage {
  import opened Bytes
  import opened Paging

  datatype Segment = Segment(vaddr: nat, offset: nat, filesz: nat, memsz: nat, flags: nat)

  function StartPage(g: Segment): nat { g.vaddr / PAGE_SIZE }

  function EndPage(g: Segment): nat { (g.vaddr + g.memsz) / PAGE_SIZE }

  /** The pages the loader visits for a segment: none, or start to end inclusive. */
  predicate Visits(g: Segment, page: nat) {
    g.memsz != 0 && StartPage(g) <= page <= EndPage(g)
  }

  function FileStart(g: Segment, page: nat): nat {
    if page * PAGE_SIZE > g.vaddr then page * PAGE_SIZE - g.vaddr else 0
  }

  function FileEnd(g: Segment, page: nat): int {
    if page * PAGE_SIZE + PAGE_SIZE > g.vaddr + g.filesz then g.filesz else page * PAGE_SIZE + PAGE_SIZE - g.vaddr
  }

  /** Does the loader put a file byte of segment `g` at address `a`? */
  predicate Covers(file: seq<byte>, g: Segment, a: nat) {
    && Visits(g, a / PAGE_SIZE)
    && g.vaddr <= a < g.vaddr + g.filesz
    && g.offset + FileEnd(g, a / PAGE_SIZE) <= |file|
  }

  /** The byte the program should find at `a`: later segments win, and memory is zero by default. */
  function Image(file: seq<byte>, segs: seq<Segment>, a: nat): byte {
    if segs == [] then 0
    else
      var g := segs[|segs| - 1];
      if Covers(file, g, a) then (CoveredOffset(file, g, a); file[g.offset + (a - g.vaddr)])
      else Image(file, segs[..|segs| - 1], a)
  }

  lemma CoveredOffset(file: seq<byte>, g: Segment, a: nat)
    requires Covers(file, g, a)
    ensures g.offset + (a - g.vaddr) < |file|
  {
    var n := a / PAGE_SIZE;
    assert a < n * PAGE_SIZE + PAGE_SIZE;
  }

  predicate InPages(segs: seq<Segment>, page: nat) {
    exists i | 0 <= i < |segs| :: Visits(segs[i], page)
  }

  /** Outside the visited pages the image is zero. */
  lemma {:induction false} ImageOutside(file: seq<byte>, segs: seq<Segment>, a: nat)
    requires !InPages(segs, a / PAGE_SIZE)
    ensures Image(file, segs, a) == 0
  {
    if segs != [] {
      var rest := segs[..|segs| - 1];
      assert !Visits(segs[|segs| - 1], a / PAGE_SIZE);
      forall i | 0 <= i < |rest|
        ensures !Visits(rest[i], a / PAGE_SIZE)
      {
        assert rest[i] == segs[i];
      }
      ImageOutside(file, rest, a);
    }
  }

  predicate CopiesInto(file: seq<byte>, g: Segment, page: nat) {
    && FileEnd(g, page) > FileStart(g, page) && FileStart(g, page) < g.filesz
    && g.offset + FileEnd(g, page) <= |file|
  }

  /** The offset in the frame where the data of a page starts. */
  function DstOffset(g: Segment, page: nat): nat {
    (if page * PAGE_SIZE < g.vaddr then g.vaddr else page * PAGE_SIZE) % PAGE_SIZE
  }

  /** No copy leaves its frame, and the copied range is the segment's part of the page. */
  lemma CopyFits(g: Segment, page: nat)
    requires Visits(g, page) && FileEnd(g, page) > FileStart(g, page)
    ensures DstOffset(g, page) + (FileEnd(g, page) - FileStart(g, page)) <= PAGE_SIZE
    ensures page * PAGE_SIZE + DstOffset(g, page) == g.vaddr + FileStart(g, page)
    ensures page * PAGE_SIZE <= g.vaddr + FileStart(g, page)
    ensures g.vaddr + FileEnd(g, page) <= page * PAGE_SIZE + PAGE_SIZE
  {
    var base := page * PAGE_SIZE;
    if base < g.vaddr {
      assert page == StartPage(g);
      assert g.vaddr - base < PAGE_SIZE;
      assert g.vaddr % PAGE_SIZE == g.vaddr - base;
    } else {
      assert base % PAGE_SIZE == 0;
    }
  }

  /** The contents of a page after the copy step, as the loader computes them. */
  function PageAfter(b: seq<byte>, file: seq<byte>, g: Segment, page: nat): (r: seq<byte>)
    requires |b| == PAGE_SIZE && Visits(g, page)
    ensures |r| == PAGE_SIZE
  {
    if CopiesInto(file, g, page) then
      CopyFits(g, page);
      var src, len, dst := g.offset + FileStart(g, page), FileEnd(g, page) - FileStart(g, page), DstOffset(g, page);
      b[..dst] + file[src..src + len] + b[dst + len..]
    else b
  }

  /** Every byte of the page is the segment's file byte where it has one, and unchanged elsewhere. */
  lemma PageAfterAt(b: seq<byte>, file: seq<byte>, g: Segment, page: nat, k: nat)
    requires |b| == PAGE_SIZE && Visits(g, page) && k < PAGE_SIZE
    ensures var a := page * PAGE_SIZE + k;
            Covers(file, g, a) ==> g.offset + (a - g.vaddr) < |file|
    ensures var a := page * PAGE_SIZE + k;
            PageAfter(b, file, g, page)[k] == if Covers(file, g, a) then file[g.offset + (a - g.vaddr)] else b[k]
  {
    var a := page * PAGE_SIZE + k;
    assert a / PAGE_SIZE == page;
    if Covers(file, g, a) {
      CoveredOffset(file, g, a);
    }
    if CopiesInto(file, g, page) {
      CopyFits(g, page);
      var src, len, dst := g.offset + FileStart(g, page), FileEnd(g, page) - FileStart(g, page), DstOffset(g, page);
      assert dst <= k < dst + len <==> g.vaddr + FileStart(g, page) <= a < g.vaddr + FileEnd(g, page);
    }
  }

  lemma ImageStep(file: seq<byte>, segs: seq<Segment>, k: nat, a: nat)
    requires k < |segs|
    ensures Covers(file, segs[k], a) ==> segs[k].offset + (a - segs[k].vaddr) < |file|
    ensures Image(file, segs[..k + 1], a)
         == if Covers(file, segs[k], a) then file[segs[k].offset + (a - segs[k].vaddr)] else Image(file, segs[..k], a)
  {
    if Covers(file, segs[k], a) {
      CoveredOffset(file, segs[k], a);
    }
    assert segs[..k + 1][..k] == segs[..k];
  }

  /** The well-formed case: file parts inside the file and not longer than memory, memory ranges disjoint. */
  predicate WellFormed(file: seq<byte>, segs: seq<Segment>) {
    && (forall i | 0 <= i < |segs| :: segs[i].filesz <= segs[i].memsz && segs[i].offset + segs[i].filesz <= |file|)
    && (forall i, j | 0 <= i < j < |segs| ::
          segs[i].vaddr + segs[i].memsz <= segs[j].vaddr || segs[j].vaddr + segs[j].memsz <= segs[i].vaddr)
  }

  lemma CoversPlain(file: seq<byte>, g: Segment, a: nat)
    requires g.filesz <= g.memsz && g.offset + g.filesz <= |file|
    ensures Covers(file, g, a) <==> g.vaddr <= a < g.vaddr + g.filesz
  {
    if g.vaddr <= a < g.vaddr + g.filesz {
      assert StartPage(g) <= a / PAGE_SIZE <= EndPage(g);
    }
  }

  /** For a well-formed list the image is the file byte of the one segment that has it, and zero elsewhere. */
  lemma {:induction false} ImageMeaning(file: seq<byte>, segs: seq<Segment>, a: nat)
    requires WellFormed(file, segs)
    ensures forall i | 0 <= i < |segs| && segs[i].vaddr <= a < segs[i].vaddr + segs[i].filesz ::
              Image(file, segs, a) == file[segs[i].offset + (a - segs[i].vaddr)]
    ensures (forall i | 0 <= i < |segs| :: !(segs[i].vaddr <= a < segs[i].vaddr + segs[i].filesz)) ==>
              Image(file, segs, a) == 0
  {
    if segs != [] {
      var n := |segs| - 1;
      var rest := segs[..n];
      CoversPlain(file, segs[n], a);
      ImageMeaning(file, rest, a);
      assert forall i | 0 <= i < n :: rest[i] == segs[i];
    }
  }
}
