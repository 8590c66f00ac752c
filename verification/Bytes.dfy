/** Little-endian integers, as stored in page tables, FAT sectors and ELF headers. */
module Bytes {

  type byte = b: int | 0 <= b < 256

  function Pow256(n: nat): (r: nat)
    ensures r > 0
  {
    if n == 0 then 1 else 256 * Pow256(n - 1)
  }

  function LeDecode(b: seq<byte>): nat {
    if |b| == 0 then 0 else b[0] + 256 * LeDecode(b[1..])
  }

  function LeEncode(v: nat, n: nat): (b: seq<byte>)
    ensures |b| == n
  {
    if n == 0 then [] else [v % 256] + LeEncode(v / 256, n - 1)
  }

  /** `from_le_bytes(to_le_bytes(v)) == v` for every value of the given width. */
  lemma {:induction false} LeRoundTrip(v: nat, n: nat)
    requires v < Pow256(n)
    ensures LeDecode(LeEncode(v, n)) == v
  {
    if n > 0 {
      LeRoundTrip(v / 256, n - 1);
      assert LeEncode(v, n)[1..] == LeEncode(v / 256, n - 1);
    }
  }

  lemma MulApart(a: nat, b: nat, m: nat)
    requires a < b
    ensures a * m + m <= b * m
  {
    assert (a + 1) * m <= b * m;
  }

  /** Quotient and remainder are unique. */
  lemma RemainderUnique(q: nat, r: nat, q': nat, r': nat, m: nat)
    requires r < m && r' < m && q * m + r == q' * m + r'
    ensures r == r'
  {
    if q' < q {
      MulApart(q', q, m);
    } else if q' > q {
      MulApart(q, q', m);
    }
  }

  lemma DivMod(v: nat, m: nat)
    requires m > 0
    ensures v == v / m * m + v % m && v % m < m
  {
  }

  lemma ModUnique(v: nat, q: nat, m: nat, r: nat)
    requires r < m && v == q * m + r
    ensures v % m == r
  {
    DivMod(v, m);
    RemainderUnique(q, r, v / m, v % m, m);
  }

  lemma SplitMod(v: nat, p: nat)
    requires p > 0
    ensures v % 256 + 256 * (v / 256 % p) == v % (256 * p)
  {
    var h, l := v / 256, v % 256;
    DivMod(h, p);
    Regroup(h / p, h % p, p);
    ModUnique(v, h / p, 256 * p, 256 * (h % p) + l);
  }

  lemma Regroup(q: nat, r: nat, p: nat)
    ensures q * (256 * p) + 256 * r == 256 * (q * p + r)
  {
  }

  /** A number too large for its field is stored modulo the field's width. */
  lemma {:induction false} LeWraps(v: nat, n: nat)
    ensures LeDecode(LeEncode(v, n)) == v % Pow256(n)
  {
    if n > 0 {
      LeWraps(v / 256, n - 1);
      assert LeEncode(v, n)[1..] == LeEncode(v / 256, n - 1);
      SplitMod(v, Pow256(n - 1));
    }
  }

  /** The converse: re-encoding a decoded field gives back the same bytes. */
  lemma {:induction false} LeRoundTripBytes(b: seq<byte>)
    ensures LeDecode(b) < Pow256(|b|)
    ensures LeEncode(LeDecode(b), |b|) == b
  {
    if |b| > 0 {
      LeRoundTripBytes(b[1..]);
      var v := LeDecode(b);
      assert v / 256 == LeDecode(b[1..]) && v % 256 == b[0];
      assert b == [b[0]] + b[1..];
    }
  }

  /** `count` zero bytes. */
  function Zeros(count: nat): (z: seq<byte>)
    ensures |z| == count
    ensures forall i | 0 <= i < count :: z[i] == 0
  {
    seq(count, _ => 0)
  }

  lemma {:induction false} ZerosDecode(n: nat)
    ensures LeDecode(Zeros(n)) == 0
  {
    if n > 0 {
      assert Zeros(n)[1..] == Zeros(n - 1);
      ZerosDecode(n - 1);
    }
  }
}
