/** The state of an address space part-way through loading an image. */
module Loading {
  import opened Bytes
  import opened ElfImage
  import opened Ownership
  import opened Paging
  import opened Spaces
  import opened VirtualMemory

  const USER_PAGES: nat := 0x8_0000_0000

  function PagePath(n: nat): Path { PathOf(n * PAGE_SIZE) }

  lemma PagePathOk(n: nat)
    requires n < USER_PAGES
    ensures |PagePath(n)| == 4 && PathOk(PagePath(n)) && PageOf(PagePath(n)) == n * PAGE_SIZE
  {
    hide PathOf, PageOf;
    PageOfSplit(n * PAGE_SIZE);
  }

  /** Only `root` changed: every other space and every frame not owned by `root` is as before. */
  ghost predicate Confined(s: Snap, s': Snap, root: Frame) {
    && s'.pool == s.pool && s'.kernelSlots == s.kernelSlots && s'.mem.Keys == s.mem.Keys
    && s'.free <= s.free && s'.spaces.Keys == s.spaces.Keys
    && (forall r | r in s.spaces && r != root :: s'.spaces[r] == s.spaces[r])
    && (forall f | f in s.owner :: f in s'.owner && s'.owner[f] == s.owner[f])
    && (forall f | f in s'.owner :: f in s.owner || f in s.free)
    && (forall f | f in s.mem && f !in s.free && !(f in s.owner && s.owner[f].root == root) :: s'.mem[f] == s.mem[f])
    && (root in s.spaces ==> SameKernel(s.mem, root, s'.mem, root, s.kernelSlots))
  }

  lemma ConfinedRefl(s: Snap, root: Frame)
    ensures Confined(s, s, root)
  {
  }

  lemma ConfinedTrans(s: Snap, s1: Snap, s2: Snap, root: Frame)
    requires Confined(s, s1, root) && Confined(s1, s2, root)
    ensures Confined(s, s2, root)
  {
    PrefixElements(s.free, s1.free);
    assert root in s.spaces ==> SameKernel(s.mem, root, s2.mem, root, s.kernelSlots);
  }

  lemma GrowsConfined(s: Snap, s': Snap, root: Frame)
    requires Grows(s, s', root, {})
    ensures Confined(s, s', root)
  {
  }

  lemma WriteConfined(s: Snap, root: Frame, f: Frame, c: FrameContent)
    requires Inv(s) && root in s.spaces && f in s.owner && s.owner[f].root == root && |s.owner[f].path| == 4 && f in s.mem
    ensures Confined(s, s.(mem := s.mem[f := c]), root)
  {
    RootFrame(s, root);
    NodeFrame(s, root, []);
    hide Inv;
  }

  ghost predicate PageIs(s: Snap, root: Frame, n: nat, b: seq<byte>) {
    && PagePath(n) in FlatOf(s, root)
    && FlatOf(s, root)[PagePath(n)].frame in s.mem
    && FrameBytes(s.mem[FlatOf(s, root)[PagePath(n)].frame]) == b
  }

  /** One iteration of `map_elf_segment`: `page` is mapped and holds the copy, other pages are untouched. */
  ghost predicate PageLoaded(s: Snap, s': Snap, root: Frame, file: seq<byte>, g: Segment, page: nat) {
    && Visits(g, page)
    && (forall p :: p in FlatOf(s', root) <==> p in FlatOf(s, root) || p == PagePath(page))
    && (PagePath(page) !in FlatOf(s, root) ==> PageIs(s', root, page, PageAfter(Zeros(PAGE_SIZE), file, g, page)))
    && (forall b: seq<byte> | |b| == PAGE_SIZE && PageIs(s, root, page, b) :: PageIs(s', root, page, PageAfter(b, file, g, page)))
    && (forall n: nat, b: seq<byte> | n < USER_PAGES && n != page && PageIs(s, root, n, b) :: PageIs(s', root, n, b))
  }

  /** The byte expected at `a` when segments 0 .. k are done and segment `k` is done below page `bound`. */
  function Want(file: seq<byte>, segs: seq<Segment>, k: nat, bound: nat, a: nat): byte
    requires k <= |segs|
  {
    if k < |segs| && a / PAGE_SIZE < bound then Image(file, segs[..k + 1], a) else Image(file, segs[..k], a)
  }

  predicate WantMapped(segs: seq<Segment>, k: nat, bound: nat, n: nat)
    requires k <= |segs|
  {
    InPages(segs[..k], n) || (k < |segs| && Visits(segs[k], n) && n < bound)
  }

  ghost predicate PageOk(s: Snap, root: Frame, file: seq<byte>, segs: seq<Segment>, k: nat, bound: nat, n: nat)
    requires k <= |segs|
  {
    && (PagePath(n) in FlatOf(s, root) <==> WantMapped(segs, k, bound, n))
    && (PagePath(n) in FlatOf(s, root) ==>
          exists b | |b| == PAGE_SIZE && PageIs(s, root, n, b) :: PageWants(file, segs, k, bound, n, b))
  }

  ghost predicate PageWants(file: seq<byte>, segs: seq<Segment>, k: nat, bound: nat, n: nat, b: seq<byte>)
    requires k <= |segs| && |b| == PAGE_SIZE
  {
    forall i: nat | i < PAGE_SIZE :: b[i] == Want(file, segs, k, bound, n * PAGE_SIZE + i)
  }

  ghost predicate Holds(s: Snap, root: Frame, file: seq<byte>, segs: seq<Segment>, k: nat, bound: nat)
    requires k <= |segs|
  {
    forall n: nat | n < USER_PAGES :: PageOk(s, root, file, segs, k, bound, n)
  }

  /** Segment `k` is the first of the list to visit the page. */
  predicate FirstVisit(segs: seq<Segment>, k: nat, n: nat) {
    k < |segs| && Visits(segs[k], n) && forall j | 0 <= j < k :: !Visits(segs[j], n)
  }

  /** A segment page is writable as the first segment that visits it asks, by bit 1 of its flags; other pages are writable. */
  predicate Writable(segs: seq<Segment>, n: nat) {
    InPages(segs, n) ==> exists k: nat | k < |segs| && FirstVisit(segs, k, n) :: segs[k].flags / 2 % 2 == 1
  }

  /** Every mapped page is a present user page, with the write permission it should have and no other flag. */
  ghost predicate RightsOk(s: Snap, root: Frame, segs: seq<Segment>) {
    forall n: nat | n < USER_PAGES && PagePath(n) in FlatOf(s, root) ::
      FlatOf(s, root)[PagePath(n)].flags == NO_FLAGS.(present := true, user := true, writable := Writable(segs, n))
  }

  /** The page was mapped already, or it is the one page mapped now, with the given write permission. */
  ghost predicate PageAdded(s: Snap, s': Snap, root: Frame, page: nat, writable: bool) {
    if PagePath(page) in FlatOf(s, root) then FlatOf(s', root) == FlatOf(s, root)
    else
      && PagePath(page) in FlatOf(s', root)
      && FlatOf(s', root) == FlatOf(s, root)[PagePath(page) := FlatOf(s', root)[PagePath(page)]]
      && FlatOf(s', root)[PagePath(page)].flags == NO_FLAGS.(present := true, user := true, writable := writable)
  }

  lemma RightsAdded(s: Snap, s': Snap, root: Frame, segs: seq<Segment>, page: nat, writable: bool)
    requires page < USER_PAGES && RightsOk(s, root, segs) && PageAdded(s, s', root, page, writable)
    requires PagePath(page) in FlatOf(s, root) || (writable <==> Writable(segs, page))
    ensures RightsOk(s', root, segs)
  {
    hide FlatOf, PathOf, Writable;
    forall n: nat | n < USER_PAGES && PagePath(n) in FlatOf(s', root)
      ensures FlatOf(s', root)[PagePath(n)].flags == NO_FLAGS.(present := true, user := true, writable := Writable(segs, n))
    {
      if n != page {
        PagePathInjective(n, page);
      }
    }
  }

  lemma FirstWrites(segs: seq<Segment>, k: nat, n: nat)
    requires FirstVisit(segs, k, n)
    ensures Writable(segs, n) <==> segs[k].flags / 2 % 2 == 1
  {
    forall j: nat | j < |segs| && FirstVisit(segs, j, n)
      ensures j == k
    {
    }
  }

  /** A page that segment `k` is the first to map. */
  lemma HoldsFirst(s: Snap, root: Frame, file: seq<byte>, segs: seq<Segment>, k: nat, page: nat)
    requires k < |segs| && page < USER_PAGES && Visits(segs[k], page) && Holds(s, root, file, segs, k, page)
    ensures PagePath(page) !in FlatOf(s, root) ==> FirstVisit(segs, k, page)
  {
    hide FlatOf, PathOf;
    assert PageOk(s, root, file, segs, k, page, page);
    if PagePath(page) !in FlatOf(s, root) {
      forall j | 0 <= j < k
        ensures !Visits(segs[j], page)
      {
        assert segs[..k][j] == segs[j];
      }
    }
  }

  /** Every segment that asks for a writable page gets it, unless an earlier one mapped the page without: the asked
      permissions are all granted exactly when the first visitor of the page is among those that ask, or nobody asks. */
  lemma GrantedIff(s: Snap, root: Frame, segs: seq<Segment>, k: nat, n: nat)
    requires RightsOk(s, root, segs) && n < USER_PAGES && PagePath(n) in FlatOf(s, root) && FirstVisit(segs, k, n)
    ensures (forall j | 0 <= j < |segs| && Visits(segs[j], n) && segs[j].flags / 2 % 2 == 1 ::
               FlatOf(s, root)[PagePath(n)].flags.writable)
       <==> segs[k].flags / 2 % 2 == 1 || forall j | k < j < |segs| && Visits(segs[j], n) :: segs[j].flags / 2 % 2 == 0
  {
    hide FlatOf, PathOf, Visits;
    FirstWrites(segs, k, n);
  }

  lemma HoldsStart(s: Snap, root: Frame, file: seq<byte>, segs: seq<Segment>)
    requires FlatOf(s, root) == map[]
    ensures Holds(s, root, file, segs, 0, 0)
  {
  }

  /** Entering segment `k`: nothing of it is loaded below its first page. */
  lemma HoldsEnter(s: Snap, root: Frame, file: seq<byte>, segs: seq<Segment>, k: nat)
    requires k < |segs| && Holds(s, root, file, segs, k, 0)
    ensures Holds(s, root, file, segs, k, StartPage(segs[k]))
  {
    hide FlatOf, PathOf, PageIs;
    forall n: nat | n < USER_PAGES
      ensures PageOk(s, root, file, segs, k, StartPage(segs[k]), n)
    {
      assert PageOk(s, root, file, segs, k, 0, n);
      if PagePath(n) in FlatOf(s, root) {
        var b :| |b| == PAGE_SIZE && PageIs(s, root, n, b) && PageWants(file, segs, k, 0, n, b);
        WantsShift(file, segs, k, 0, StartPage(segs[k]), n, b);
      }
    }
  }

  /** Moving the bound over pages segment `k` does not visit changes nothing that is wanted. */
  lemma WantsShift(file: seq<byte>, segs: seq<Segment>, k: nat, bound: nat, bound': nat, n: nat, b: seq<byte>)
    requires k < |segs| && |b| == PAGE_SIZE && PageWants(file, segs, k, bound, n, b)
    requires (n < bound <==> n < bound') || !Visits(segs[k], n)
    ensures PageWants(file, segs, k, bound', n, b)
  {
    forall i: nat | i < PAGE_SIZE
      ensures b[i] == Want(file, segs, k, bound', n * PAGE_SIZE + i)
    {
      var a := n * PAGE_SIZE + i;
      assert a / PAGE_SIZE == n;
      assert b[i] == Want(file, segs, k, bound, a);
      ImageStep(file, segs, k, a);
    }
  }

  /** Leaving segment `k`, or skipping an empty one. */
  lemma HoldsLeave(s: Snap, root: Frame, file: seq<byte>, segs: seq<Segment>, k: nat, bound: nat)
    requires k < |segs| && Holds(s, root, file, segs, k, bound)
    requires segs[k].memsz == 0 || bound > EndPage(segs[k])
    ensures Holds(s, root, file, segs, k + 1, 0)
  {
    hide FlatOf, PathOf, PageIs, Image, Covers;
    var next := k + 1;
    forall n: nat | n < USER_PAGES
      ensures PageOk(s, root, file, segs, next, 0, n)
    {
      assert PageOk(s, root, file, segs, k, bound, n);
      InPagesStep(segs, k, n);
      if PagePath(n) in FlatOf(s, root) {
        var b :| |b| == PAGE_SIZE && PageIs(s, root, n, b) && PageWants(file, segs, k, bound, n, b);
        WantsLeave(file, segs, k, bound, n, b);
      }
    }
  }

  lemma WantsLeave(file: seq<byte>, segs: seq<Segment>, k: nat, bound: nat, n: nat, b: seq<byte>)
    requires k < |segs| && |b| == PAGE_SIZE && PageWants(file, segs, k, bound, n, b)
    requires n < bound || !Visits(segs[k], n)
    ensures PageWants(file, segs, k + 1, 0, n, b)
  {
    forall i: nat | i < PAGE_SIZE
      ensures b[i] == Want(file, segs, k + 1, 0, n * PAGE_SIZE + i)
    {
      var a := n * PAGE_SIZE + i;
      assert a / PAGE_SIZE == n;
      assert b[i] == Want(file, segs, k, bound, a);
      ImageStep(file, segs, k, a);
    }
  }

  lemma InPagesStep(segs: seq<Segment>, k: nat, n: nat)
    requires k < |segs|
    ensures InPages(segs[..k + 1], n) <==> InPages(segs[..k], n) || Visits(segs[k], n)
  {
    if InPages(segs[..k], n) {
      var i :| 0 <= i < k && Visits(segs[..k][i], n);
      assert segs[..k + 1][i] == segs[..k][i];
    }
    if Visits(segs[k], n) {
      assert segs[..k + 1][k] == segs[k];
    }
    if InPages(segs[..k + 1], n) {
      var i :| 0 <= i < k + 1 && Visits(segs[..k + 1][i], n);
      if i < k {
        assert segs[..k][i] == segs[..k + 1][i];
      }
    }
  }

  /** One loaded page extends what holds by one page. */
  lemma HoldsPage(s: Snap, s': Snap, root: Frame, file: seq<byte>, segs: seq<Segment>, k: nat, page: nat)
    requires k < |segs| && page < USER_PAGES
    requires Holds(s, root, file, segs, k, page) && PageLoaded(s, s', root, file, segs[k], page)
    ensures Holds(s', root, file, segs, k, page + 1)
  {
    hide FlatOf, PathOf, PageIs, Image, Covers, Visits, InPages;
    var next := page + 1;
    forall n: nat | n < USER_PAGES
      ensures PageOk(s', root, file, segs, k, next, n)
    {
      assert PageOk(s, root, file, segs, k, page, n);
      if n == page {
        if PagePath(n) in FlatOf(s, root) {
          var b :| |b| == PAGE_SIZE && PageIs(s, root, n, b) && PageWants(file, segs, k, page, n, b);
          WantsCopy(file, segs, k, page, b);
        } else {
          ZeroWants(file, segs, k, page);
          WantsCopy(file, segs, k, page, Zeros(PAGE_SIZE));
        }
      } else {
        PagePathInjective(n, page);
        if PagePath(n) in FlatOf(s, root) {
          var b :| |b| == PAGE_SIZE && PageIs(s, root, n, b) && PageWants(file, segs, k, page, n, b);
          WantsShift(file, segs, k, page, page + 1, n, b);
        }
      }
    }
  }

  lemma PagePathInjective(n: nat, m: nat)
    requires n < USER_PAGES && m < USER_PAGES && n != m
    ensures PagePath(n) != PagePath(m)
  {
    PagePathOk(n);
    PagePathOk(m);
  }

  lemma WantsCopy(file: seq<byte>, segs: seq<Segment>, k: nat, page: nat, b: seq<byte>)
    requires k < |segs| && |b| == PAGE_SIZE && Visits(segs[k], page) && PageWants(file, segs, k, page, page, b)
    ensures PageWants(file, segs, k, page + 1, page, PageAfter(b, file, segs[k], page))
  {
    forall i: nat | i < PAGE_SIZE
      ensures PageAfter(b, file, segs[k], page)[i] == Want(file, segs, k, page + 1, page * PAGE_SIZE + i)
    {
      var a := page * PAGE_SIZE + i;
      assert a / PAGE_SIZE == page;
      assert b[i] == Want(file, segs, k, page, a);
      PageAfterAt(b, file, segs[k], page, i);
      ImageStep(file, segs, k, a);
    }
  }

  /** A page no earlier segment visited should be zero so far. */
  lemma ZeroWants(file: seq<byte>, segs: seq<Segment>, k: nat, page: nat)
    requires k < |segs| && !InPages(segs[..k], page)
    ensures PageWants(file, segs, k, page, page, Zeros(PAGE_SIZE))
  {
    forall i: nat | i < PAGE_SIZE
      ensures Zeros(PAGE_SIZE)[i] == Want(file, segs, k, page, page * PAGE_SIZE + i)
    {
      var a := page * PAGE_SIZE + i;
      assert a / PAGE_SIZE == page;
      ImageOutside(file, segs[..k], a);
    }
  }
}
