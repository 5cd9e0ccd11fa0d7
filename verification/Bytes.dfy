/** Byte strings and the number encodings shared by the journal and disk-image models. */
module Bytes {

  type Byte = b: int | 0 <= b < 256
  type Bytes = seq<Byte>

  const NEWLINE: Byte := 10
  const EQUALS: Byte := 61

  /** memchr: the first position of b in s, or |s| when there is none. */
  function IndexOf(s: Bytes, b: Byte): (k: nat)
    ensures k <= |s|
    ensures k < |s| <==> b in s
    ensures k < |s| ==> s[k] == b
    ensures b !in s[..k]
  {
    if s == [] || s[0] == b then 0
    else
      var k := IndexOf(s[1..], b);
      assert s[..k + 1] == [s[0]] + s[1..][..k];
      k + 1
  }

  lemma {:induction false} IndexOfUnique(s: Bytes, b: Byte, k: nat)
    requires k < |s| && s[k] == b && b !in s[..k]
    ensures IndexOf(s, b) == k
  {
    if k > 0 {
      assert s[0] in s[..k] && s[1..][..k - 1] == s[1..k];
      assert forall i :: 1 <= i < k ==> s[i] in s[..k];
      IndexOfUnique(s[1..], b, k - 1);
    }
  }

  predicate StartsWith(s: Bytes, prefix: Bytes) {
    |prefix| <= |s| && s[..|prefix|] == prefix
  }

  /** A slice of a slice. */
  lemma SubSlice(s: Bytes, lo: nat, hi: nat, a: nat, b: nat)
    requires a <= b <= hi - lo && lo <= hi <= |s|
    ensures s[lo..hi][a..b] == s[lo + a..lo + b]
  {
    var x, y := s[lo..hi][a..b], s[lo + a..lo + b];
    forall i | 0 <= i < b - a
      ensures x[i] == y[i]
    {
      assert x[i] == s[lo..hi][a + i];
    }
  }

  lemma Associate(a: Bytes, b: Bytes, c: Bytes)
    ensures (a + b) + c == a + (b + c)
  {
  }

  /** Cutting a suffix in two. */
  lemma CutSuffix(s: Bytes, lo: nat, mid: nat)
    requires lo <= mid <= |s|
    ensures s[lo..] == s[lo..mid] + s[mid..]
  {
  }

  /** Sequences that agree up to n agree on every slice below n. */
  lemma SliceFrame(a: Bytes, b: Bytes, n: nat, lo: nat, hi: nat)
    requires lo <= hi <= n <= |a| && n <= |b| && a[..n] == b[..n]
    ensures a[lo..hi] == b[lo..hi]
  {
    SubSlice(a, 0, n, lo, hi);
    SubSlice(b, 0, n, lo, hi);
  }

  lemma SuffixFrame(a: Bytes, b: Bytes, from: nat, lo: nat, hi: nat)
    requires from <= lo <= hi <= |a| == |b| && a[from..] == b[from..]
    ensures a[lo..hi] == b[lo..hi]
  {
    SubSlice(a, from, |a|, lo - from, hi - from);
    SubSlice(b, from, |b|, lo - from, hi - from);
  }

  function Concat(parts: seq<Bytes>): Bytes {
    if parts == [] then [] else parts[0] + Concat(parts[1..])
  }

  lemma {:induction false} ConcatAppend(parts: seq<Bytes>, last: Bytes)
    ensures Concat(parts + [last]) == Concat(parts) + last
  {
    if parts == [] {
      assert parts + [last] == [last];
      assert Concat([last]) == last + Concat([]);
    } else {
      assert (parts + [last])[1..] == parts[1..] + [last];
      ConcatAppend(parts[1..], last);
    }
  }

  // ---- fixed-width integers --------------------------------------------------------

  const TWO_64: nat := 0x1_0000_0000_0000_0000

  function Pow256(width: nat): (p: nat)
    ensures p > 0
  {
    if width == 0 then 1 else 256 * Pow256(width - 1)
  }

  /** htole64 and friends: the low `width` bytes of n, least significant first. */
  function LittleEndian(n: nat, width: nat): (s: Bytes)
    ensures |s| == width
  {
    if width == 0 then [] else [n % 256] + LittleEndian(n / 256, width - 1)
  }

  /** le64toh. */
  function FromLittleEndian(s: Bytes): (n: nat)
    ensures n < Pow256(|s|)
  {
    if s == [] then 0 else s[0] + 256 * FromLittleEndian(s[1..])
  }

  lemma ByteDivision(b: Byte, m: nat)
    ensures (b + 256 * m) % 256 == b && (b + 256 * m) / 256 == m
  {
  }

  lemma {:induction false} LittleEndianRoundTrip(n: nat, width: nat)
    requires n < Pow256(width)
    ensures FromLittleEndian(LittleEndian(n, width)) == n
  {
    if width > 0 {
      LittleEndianRoundTrip(n / 256, width - 1);
      assert LittleEndian(n, width)[1..] == LittleEndian(n / 256, width - 1);
    }
  }

  lemma {:induction false} FromLittleEndianInverse(s: Bytes)
    ensures LittleEndian(FromLittleEndian(s), |s|) == s
  {
    if s != [] {
      var m := FromLittleEndian(s[1..]);
      ByteDivision(s[0], m);
      assert LittleEndian(FromLittleEndian(s), |s|) == [s[0]] + LittleEndian(m, |s| - 1);
      FromLittleEndianInverse(s[1..]);
    }
  }

  lemma Pow256Of8()
    ensures Pow256(8) == TWO_64
  {
    assert Pow256(1) == 256;
    assert Pow256(2) == 0x1_0000;
    assert Pow256(4) == 0x1_0000_0000;
    assert Pow256(6) == 0x1_0000_0000_0000;
  }

  /** be32toh and be64toh. */
  function FromBigEndian(s: Bytes): (n: nat)
    ensures n < Pow256(|s|)
  {
    if s == [] then 0
    else 256 * FromBigEndian(s[..|s| - 1]) + s[|s| - 1]
  }
}
