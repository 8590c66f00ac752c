/** Searching a directory slot by slot, as the driver's nested loops do. */
module FatScan {
  import opened Bytes
  import opened FatDir
  import opened FatLayout

  /** What a directory scan stops at. */
  datatype Query =
    | FreeSlot                       // write_dir_entry
    | Named(short: seq<byte>)        // lookup, create, mkdir, unlink
    | Removable(short: seq<byte>)    // remove_dir_entry: also stops at the end-of-directory mark
    | Starting(first: nat)           // update_size_recursive

  predicate Hit(q: Query, e: seq<byte>)
    requires IsSlot(e)
  {
    match q
    case FreeSlot => IsFree(e)
    case Named(short) => Names(e, short)
    case Removable(short) => e[0] == 0x00 || (e[0] != 0xE5 && e[11] != 0x0F && Name(e) == short)
    case Starting(first) => IsEntry(e) && FirstCluster(e) == first
  }

  /** Slots the size update looks at: not free, not a long-name part, not a dot entry. */
  predicate IsEntry(e: seq<byte>)
    requires IsSlot(e)
  {
    !IsFree(e) && e[11] != 0x0F && e[0] != 0x2E
  }

  /** The first slot from `i` on that the query hits, or the number of slots. */
  function FirstHit(b: seq<byte>, q: Query, i: nat): (r: nat)
    ensures i <= r
    ensures SLOT * r + SLOT <= |b| ==> Hit(q, SlotOf(b, r))
    decreases |b| - SLOT * i
  {
    if SLOT * i + SLOT > |b| || Hit(q, SlotOf(b, i)) then i else FirstHit(b, q, i + 1)
  }

  datatype Found = Missing | Unreadable | At(c: nat, i: nat)

  function Scan(disk: seq<byte>, g: Geometry, chain: seq<nat>, q: Query): (r: Found)
    ensures r.At? ==> r.c in chain && ClusterData(disk, g, r.c).Some? && SLOT * r.i + SLOT <= ClusterLen(g)
    ensures r.At? ==> Hit(q, SlotOf(ClusterData(disk, g, r.c).value, r.i))
  {
    if chain == [] then Missing
    else
      var b := ClusterData(disk, g, chain[0]);
      if b.None? then Unreadable
      else
        var i := FirstHit(b.value, q, 0);
        if SLOT * i + SLOT <= |b.value| then At(chain[0], i) else Scan(disk, g, chain[1..], q)
  }

  /** A scan reports the first hit: no earlier slot of that cluster matches. */
  lemma {:induction false} FirstHitFirst(b: seq<byte>, q: Query, i: nat, j: nat)
    requires i <= j < FirstHit(b, q, i) && SLOT * j + SLOT <= |b|
    ensures !Hit(q, SlotOf(b, j))
    decreases |b| - SLOT * i
  {
    if i < j {
      FirstHitFirst(b, q, i + 1, j);
    }
  }

  /** A scan that reports nothing has looked everywhere. */
  lemma {:induction false} ScanComplete(disk: seq<byte>, g: Geometry, chain: seq<nat>, q: Query, k: nat, i: nat)
    requires Scan(disk, g, chain, q) == Missing && k < |chain| && SLOT * i + SLOT <= ClusterLen(g)
    ensures ClusterData(disk, g, chain[k]).Some? && !Hit(q, SlotOf(ClusterData(disk, g, chain[k]).value, i))
    decreases k
  {
    if k == 0 {
      FirstHitFirst(ClusterData(disk, g, chain[0]).value, q, 0, i);
    } else {
      ScanComplete(disk, g, chain[1..], q, k - 1, i);
    }
  }

  /** None of the first `n` slots matches. */
  ghost predicate Misses(b: seq<byte>, q: Query, n: nat) {
    forall i: nat | i < n && SLOT * i + SLOT <= |b| :: !Hit(q, SlotOf(b, i))
  }

  ghost predicate ClusterMisses(disk: seq<byte>, g: Geometry, c: nat, q: Query) {
    ClusterData(disk, g, c).Some? && Misses(ClusterData(disk, g, c).value, q, ClusterLen(g))
  }

  lemma FirstHitMisses(b: seq<byte>, q: Query)
    ensures Misses(b, q, FirstHit(b, q, 0))
    ensures SLOT * FirstHit(b, q, 0) + SLOT > |b| ==> Misses(b, q, |b|)
  {
    forall i: nat | i < FirstHit(b, q, 0) && SLOT * i + SLOT <= |b|
      ensures !Hit(q, SlotOf(b, i))
    {
      FirstHitFirst(b, q, 0, i);
    }
  }

  /** A hit is the first match of the whole directory: everything before it was readable and does not match. */
  lemma {:induction false} ScanFirst(disk: seq<byte>, g: Geometry, chain: seq<nat>, q: Query) returns (k: nat)
    requires Scan(disk, g, chain, q).At?
    ensures var hit := Scan(disk, g, chain, q);
            && k < |chain| && chain[k] == hit.c
            && (forall m | 0 <= m < k :: ClusterMisses(disk, g, chain[m], q))
            && Misses(ClusterData(disk, g, hit.c).value, q, hit.i)
  {
    hide Misses, ClusterData;
    var b := ClusterData(disk, g, chain[0]).value;
    FirstHitMisses(b, q);
    if SLOT * FirstHit(b, q, 0) + SLOT <= |b| {
      return 0;
    }
    var j := ScanFirst(disk, g, chain[1..], q);
    k := j + 1;
    forall m | 0 <= m < k
      ensures ClusterMisses(disk, g, chain[m], q)
    {
      if m > 0 {
        assert chain[1..][m - 1] == chain[m];
      }
    }
  }

  /** A readable directory never makes a search give up. */
  lemma {:induction false} ScanReadable(disk: seq<byte>, g: Geometry, chain: seq<nat>, q: Query)
    requires Readable(disk, g, chain)
    ensures !Scan(disk, g, chain, q).Unreadable?
  {
    hide ClusterData, FirstHit;
    if chain != [] {
      ScanReadable(disk, g, chain[1..], q);
    }
  }

  method ScanDirectory(disk: seq<byte>, g: Geometry, chain: seq<nat>, q: Query) returns (r: Found)
    ensures r == Scan(disk, g, chain, q)
  {
    hide ClusterData;
    var k := 0;
    while k < |chain|
      invariant 0 <= k <= |chain|
      invariant Scan(disk, g, chain[k..], q) == Scan(disk, g, chain, q)
    {
      var b := ClusterData(disk, g, chain[k]);
      if b.None? {
        return Unreadable;
      }
      var i := 0;
      while SLOT * i + SLOT <= |b.value|
        invariant FirstHit(b.value, q, i) == FirstHit(b.value, q, 0)
        decreases |b.value| - SLOT * i
      {
        if Hit(q, SlotOf(b.value, i)) {
          return At(chain[k], i);
        }
        i := i + 1;
      }
      assert chain[k..][1..] == chain[k + 1..];
      k := k + 1;
    }
    return Missing;
  }

  /** The subdirectory a slot names, if any. */
  function SubdirAt(e: seq<byte>): seq<nat>
    requires IsSlot(e)
  {
    if IsEntry(e) && IsDir(e) && FirstCluster(e) >= 2 then [FirstCluster(e)] else []
  }

  /** First clusters of the subdirectories listed in one cluster, from slot `i` on. */
  function SubdirsIn(b: seq<byte>, i: nat): seq<nat>
    decreases |b| - SLOT * i
  {
    if SLOT * i + SLOT > |b| then [] else SubdirAt(SlotOf(b, i)) + SubdirsIn(b, i + 1)
  }

  function Subdirs(disk: seq<byte>, g: Geometry, chain: seq<nat>): seq<nat> {
    if chain == [] || ClusterData(disk, g, chain[0]).None? then []
    else SubdirsIn(ClusterData(disk, g, chain[0]).value, 0) + Subdirs(disk, g, chain[1..])
  }
}
