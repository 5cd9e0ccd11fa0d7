/**
 QCOW2 to raw conversion: the header checks, the decoding of table entries, the arithmetic of
 guest offsets and the table walk that fills the raw image.

 Shifts and masks of the source are written as divisions and remainders by powers of two;
 every expression of type uint64_t that could exceed it is reduced modulo 2^64.
 */
module Qcow2 {
  import opened Bytes

  datatype Errno = EIO | EBADMSG | ENOTSUP | EINVAL

  datatype Result<+T> = Ok(value: T) | Err(error: Errno)

  // ---- powers of two ---------------------------------------------------------------

  function Pow2(n: nat): (p: nat)
    ensures p > 0
  {
    if n == 0 then 1 else 2 * Pow2(n - 1)
  }

  lemma {:induction false} Pow2Add(a: nat, b: nat)
    ensures Pow2(a + b) == Pow2(a) * Pow2(b)
    decreases b
  {
    if b > 0 {
      Pow2Add(a, b - 1);
      assert Pow2(a) * Pow2(b) == 2 * (Pow2(a) * Pow2(b - 1));
    }
  }

  lemma {:induction false} Pow2Monotone(a: nat, b: nat)
    requires a <= b
    ensures Pow2(a) <= Pow2(b)
    decreases b
  {
    if a < b {
      Pow2Monotone(a, b - 1);
    }
  }

  lemma Pow2Of64()
    ensures Pow2(62) == 0x4000_0000_0000_0000 && Pow2(63) == 0x8000_0000_0000_0000 && Pow2(64) == TWO_64
  {
    hide Pow2;
    Pow2Of9();
    Pow2Of1();
    Pow2Add(9, 9);
    Pow2Add(18, 9);
    Pow2Add(27, 27);
    Pow2Add(54, 1);
    Pow2Add(55, 1);
    Pow2Add(56, 1);
    Pow2Add(57, 1);
    Pow2Add(58, 1);
    Pow2Add(59, 1);
    Pow2Add(60, 1);
    Pow2Add(61, 1);
    Pow2Add(62, 1);
    Pow2Add(63, 1);
  }

  lemma MulMonotone(a: nat, b: nat, m: nat)
    requires a <= b
    ensures a * m <= b * m
  {
  }

  lemma DivMod(a: nat, m: nat, b: nat)
    requires m > 0 && b < m
    ensures (a * m + b) / m == a && (a * m + b) % m == b
  {
    var x := a * m + b;
    var q := x / m;
    assert x == m * q + x % m;
    if q < a {
      MulMonotone(q + 1, a, m);
    } else if a < q {
      MulMonotone(a + 1, q, m);
    }
  }

  // ---- table entries ---------------------------------------------------------------

  predicate Bit(q: nat, n: nat) {
    (q / Pow2(n)) % 2 == 1
  }

  datatype Mapping = Unsupported | Hole | Standard(offset: nat) | Compressed(offset: nat, size: nat)

  /** normalize_offset on a big-endian word already converted to host order; compressed
      entries are allowed in second-level tables only. */
  function NormalizeOffset(clusterBits: nat, q: nat, allowCompressed: bool): Mapping
    requires 9 <= clusterBits <= 21
  {
    if Bit(q, 62) then
      if !allowCompressed then Unsupported
      else
        var shift := 64 - 2 - (clusterBits - 8);
        var sectors := (q / Pow2(shift)) % Pow2(clusterBits - 8);
        var offset := q % Pow2(shift);
        if offset > 0 then Compressed(offset, (sectors + 1) * 512 - q % 512) else Hole
    else if Bit(q, 0) then Hole
    else
      var offset := q % Pow2(63);
      if offset > 0 then Standard(offset) else Hole
  }

  /** Standard Cluster Descriptor: bit 63 is the "copied" flag, bit 0 the "all zeroes" flag. */
  function EncodeStandard(copied: bool, offset: nat, zeroes: bool): nat {
    (if copied then Pow2(63) else 0) + offset + (if zeroes then 1 else 0)
  }

  /** Compressed Clusters Descriptor: bit 62 set, then the number of additional 512-byte
      sectors, then x = 62 - (cluster_bits - 8) bits of host offset. */
  function EncodeCompressed(clusterBits: nat, offset: nat, sectors: nat): nat
    requires 9 <= clusterBits <= 21
  {
    Pow2(62) + sectors * Pow2(62 - (clusterBits - 8)) + offset
  }

  lemma StandardBits(copied: bool, offset: nat, zeroes: bool)
    requires offset < Pow2(62) && offset % 2 == 0
    ensures var q := EncodeStandard(copied, offset, zeroes);
            !Bit(q, 62) && (Bit(q, 0) <==> zeroes) && (!zeroes ==> q % Pow2(63) == offset)
  {
    Pow2Of64();
    assert Pow2(0) == 1;
  }

  /** Decoding inverts the specified encoding of standard clusters; holes and clusters flagged
      as zero are not told apart. */
  lemma DecodeStandard(clusterBits: nat, copied: bool, offset: nat, zeroes: bool, allow: bool)
    requires 9 <= clusterBits <= 21 && offset < Pow2(62) && offset % 2 == 0
    ensures NormalizeOffset(clusterBits, EncodeStandard(copied, offset, zeroes), allow)
         == if zeroes || offset == 0 then Hole else Standard(offset)
  {
    hide Pow2, Bit, EncodeStandard;
    StandardBits(copied, offset, zeroes);
  }

  /** A word P*X + s*X + o taken apart, for s < P and o < X. */
  lemma PackedLow(P: nat, X: nat, s: nat, o: nat)
    requires s < P && o < X
    ensures (P * X + s * X + o) / X == P + s && (P * X + s * X + o) % X == o
    ensures (P + s) % P == s
  {
    Distribute(P, s, X);
    DivMod(P + s, X, o);
    DivMod(1, P, s);
  }

  lemma PackedTop(P: nat, X: nat, s: nat, o: nat)
    requires s < P && o < X
    ensures P * X > 0 && (P * X + s * X + o) / (P * X) == 1
  {
    MulMonotone(s + 1, P, X);
    Distribute(s, 1, X);
    var all, low := P * X, s * X + o;
    assert low < all;
    DivMod(1, all, low);
  }

  lemma CompressedBits(clusterBits: nat, offset: nat, sectors: nat)
    requires 9 <= clusterBits <= 21
    requires offset < Pow2(62 - (clusterBits - 8)) && sectors < Pow2(clusterBits - 8)
    ensures var q, x := EncodeCompressed(clusterBits, offset, sectors), 62 - (clusterBits - 8);
            && q / Pow2(x) == Pow2(clusterBits - 8) + sectors && q % Pow2(x) == offset
            && (q / Pow2(x)) % Pow2(clusterBits - 8) == sectors && Bit(q, 62)
  {
    hide Pow2;
    Pow2Add(clusterBits - 8, 62 - (clusterBits - 8));
    PackedLow(Pow2(clusterBits - 8), Pow2(62 - (clusterBits - 8)), sectors, offset);
    PackedTop(Pow2(clusterBits - 8), Pow2(62 - (clusterBits - 8)), sectors, offset);
  }

  lemma SectorOffset(x: nat, high: nat, offset: nat)
    requires x >= 9
    ensures (high * Pow2(x) + offset) % 512 == offset % 512
  {
    hide Pow2;
    Pow2Add(9, x - 9);
    Pow2Of9();
    var k := high * Pow2(x - 9);
    assert high * Pow2(x) == 512 * k;
  }

  lemma Distribute(a: nat, b: nat, m: nat)
    ensures (a + b) * m == a * m + b * m
  {
  }

  lemma Pow2Of9()
    ensures Pow2(9) == 512
  {
  }

  lemma DecodeCompressed(clusterBits: nat, offset: nat, sectors: nat)
    requires 9 <= clusterBits <= 21
    requires 0 < offset < Pow2(62 - (clusterBits - 8)) && sectors < Pow2(clusterBits - 8)
    ensures NormalizeOffset(clusterBits, EncodeCompressed(clusterBits, offset, sectors), true)
         == Compressed(offset, (sectors + 1) * 512 - offset % 512)
    ensures NormalizeOffset(clusterBits, EncodeCompressed(clusterBits, offset, sectors), false) == Unsupported
  {
    hide Pow2, Bit;
    var m, x := clusterBits - 8, 62 - (clusterBits - 8);
    CompressedBits(clusterBits, offset, sectors);
    Pow2Add(m, x);
    Distribute(Pow2(m), sectors, Pow2(x));
    SectorOffset(x, Pow2(m) + sectors, offset);
  }

  /** The number of bytes to read for a compressed cluster is never zero and fits twice a
      cluster; any table entry, whatever its bits, is decoded within these bounds. */
  lemma CompressedSizeBounds(clusterBits: nat, q: nat)
    requires 9 <= clusterBits <= 21 && q < TWO_64
    ensures var m := NormalizeOffset(clusterBits, q, true);
            m.Compressed? ==> 1 <= m.size <= 2 * Pow2(clusterBits) && 0 < m.offset < Pow2(62)
    ensures var m := NormalizeOffset(clusterBits, q, true); m.Standard? ==> 0 < m.offset < Pow2(62)
  {
    hide Pow2;
    Pow2Add(clusterBits - 8, 9);
    Pow2Of9();
    Pow2Add(clusterBits, 1);
    Pow2Monotone(62 - (clusterBits - 8), 62);
    assert Pow2(clusterBits + 1) == 2 * Pow2(clusterBits) by { Pow2Of1(); }
    Bit62Clear(q);
  }

  lemma Pow2Of1()
    ensures Pow2(1) == 2
  {
    assert Pow2(0) == 1;
  }

  lemma Bit62Clear(q: nat)
    requires q < TWO_64
    ensures !Bit(q, 62) ==> q % Pow2(63) < Pow2(62)
  {
    Pow2Of64();
  }
}
