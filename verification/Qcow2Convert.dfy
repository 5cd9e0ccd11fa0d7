/**
 The conversion itself: the raw file that comes out is the virtual disk that the tables of
 the image describe, with zeroes where they lead nowhere.
 */
module Qcow2Convert {
  import opened Bytes
  import opened Qcow2
  import opened Wrappers

  const QCOW2_MAGIC: nat := 0x514649fb
  const HEADER_BYTES: nat := 104
  const OFF_MAX: nat := 0x7fff_ffff_ffff_ffff
  const L1_SIZE_MAX: nat := 32 * 1024 * 1024

  // ---- the header ------------------------------------------------------------------

  datatype Header = Header(magic: nat, version: nat, backingFileOffset: nat, clusterBits: nat, size: nat,
                           cryptMethod: nat, l1Size: nat, l1TableOffset: nat, incompatible: nat, headerLength: nat)

  /** The on-disk layout, big-endian. Version 2 has no header length field. */
  function ParseHeader(b: Bytes): Header
    requires |b| == HEADER_BYTES
  {
    var version := FromBigEndian(b[4..8]);
    Header(FromBigEndian(b[0..4]), version, FromBigEndian(b[8..16]), FromBigEndian(b[20..24]), FromBigEndian(b[24..32]),
           FromBigEndian(b[32..36]), FromBigEndian(b[36..40]), FromBigEndian(b[40..48]), FromBigEndian(b[72..80]),
           if version < 3 then 72 else FromBigEndian(b[100..104]))
  }

  function VerifyHeader(h: Header): Option<Errno> {
    if h.magic != QCOW2_MAGIC then Some(EBADMSG)
    else if h.version != 2 && h.version != 3 then Some(ENOTSUP)
    else if h.cryptMethod != 0 then Some(ENOTSUP)
    else if h.clusterBits < 9 then Some(EBADMSG)
    else if h.clusterBits > 21 then Some(EBADMSG)
    else if h.size % Pow2(h.clusterBits) != 0 then Some(EBADMSG)
    else if h.l1Size > L1_SIZE_MAX then Some(EBADMSG)
    else if h.version == 3 && h.incompatible != 0 then Some(ENOTSUP)
    else if h.version == 3 && h.headerLength < HEADER_BYTES then Some(EBADMSG)
    else None
  }

  // ---- guest offsets ---------------------------------------------------------------

  /** ((i << l2_bits) + j) << cluster_bits, in 64 bits. */
  function GuestOffset(clusterBits: nat, i: nat, j: nat): nat
    requires 9 <= clusterBits <= 21
  {
    (((i * Pow2(clusterBits - 3)) % TWO_64 + j) % TWO_64 * Pow2(clusterBits)) % TWO_64
  }

  lemma Pow2Product(clusterBits: nat)
    requires 9 <= clusterBits <= 21
    ensures Pow2(25) == L1_SIZE_MAX
    ensures L1_SIZE_MAX * Pow2(clusterBits - 3) * Pow2(clusterBits) <= TWO_64
  {
    hide Pow2;
    Pow2Of64();
    Pow2Of25();
    Pow2Add(25, clusterBits - 3);
    Pow2Add(25 + (clusterBits - 3), clusterBits);
    Pow2Monotone(25 + (clusterBits - 3) + clusterBits, 64);
  }

  lemma Pow2Of25()
    ensures Pow2(25) == L1_SIZE_MAX
  {
    hide Pow2;
    Pow2Of9();
    Pow2Of1();
    Pow2Add(9, 9);
    Pow2Add(18, 1);
    Pow2Add(19, 1);
    Pow2Add(20, 1);
    Pow2Add(21, 1);
    Pow2Add(22, 1);
    Pow2Add(23, 1);
    Pow2Add(24, 1);
  }

  lemma ClusterBelow(i: nat, j: nat, n: nat, l2: nat, cs: nat)
    requires i < n && j < l2
    ensures (i * l2 + j) * cs + cs <= n * l2 * cs
  {
    MulMonotone(i + 1, n, l2);
    Distribute(i, 1, l2);
    MulMonotone(i * l2 + j + 1, n * l2, cs);
    Distribute(i * l2 + j, 1, cs);
  }

  /** After verify_header the offset of a guest cluster never wraps around, and the cluster
      ends within 64 bits. */
  lemma GuestOffsetExact(clusterBits: nat, i: nat, j: nat)
    requires 9 <= clusterBits <= 21 && i < L1_SIZE_MAX && j < Pow2(clusterBits - 3)
    ensures GuestOffset(clusterBits, i, j) == (i * Pow2(clusterBits - 3) + j) * Pow2(clusterBits)
    ensures GuestOffset(clusterBits, i, j) + Pow2(clusterBits) <= TWO_64
  {
    hide Pow2;
    var l2, cs := Pow2(clusterBits - 3), Pow2(clusterBits);
    Pow2Product(clusterBits);
    ClusterBelow(i, j, L1_SIZE_MAX, l2, cs);
    NoWrap(i * l2, j, cs);
  }

  lemma NoWrap(a: nat, j: nat, cs: nat)
    requires cs > 0 && (a + j) * cs + cs <= TWO_64
    ensures ((a % TWO_64 + j) % TWO_64 * cs) % TWO_64 == (a + j) * cs
  {
    MulMonotone(1, cs, a + j);
    Below64(a);
    Below64(a + j);
    Below64((a + j) * cs);
  }

  lemma Below64(x: nat)
    requires x < TWO_64
    ensures x % TWO_64 == x
  {
  }

  /** The bound is tight: with 2^25 entries and clusters of 2 MB the last cluster ends at 2^64
      exactly, and one more entry would start again at zero. */
  lemma GuestOffsetTight()
    ensures GuestOffset(21, L1_SIZE_MAX - 1, Pow2(18) - 1) + Pow2(21) == TWO_64
    ensures GuestOffset(21, L1_SIZE_MAX, 0) == 0
  {
    hide Pow2;
    GuestOffsetExact(21, L1_SIZE_MAX - 1, Pow2(18) - 1);
    Pow2Of25();
    Pow2Of64();
    Pow2Add(25, 18);
    Pow2Add(43, 21);
    var l2, cs := Pow2(18), Pow2(21);
    assert (L1_SIZE_MAX - 1) * l2 + (l2 - 1) == Pow2(43) - 1;
    assert (Pow2(43) - 1) * cs + cs == Pow2(43) * cs;
    Pow2Monotone(43, 63);
    assert (L1_SIZE_MAX * l2) % TWO_64 == Pow2(43);
  }

  lemma ClustersDisjoint(c: nat, d: nat, cs: nat)
    requires c < d
    ensures c * cs + cs <= d * cs
  {
    MulMonotone(c + 1, d, cs);
    Distribute(c, 1, cs);
  }

  /** Different table positions describe disjoint guest clusters. */
  lemma GuestOffsetsDisjoint(clusterBits: nat, i: nat, j: nat, i': nat, j': nat)
    requires 9 <= clusterBits <= 21 && i < L1_SIZE_MAX && i' < L1_SIZE_MAX
    requires j < Pow2(clusterBits - 3) && j' < Pow2(clusterBits - 3) && (i, j) != (i', j')
    ensures var p, q, cs := GuestOffset(clusterBits, i, j), GuestOffset(clusterBits, i', j'), Pow2(clusterBits);
            p + cs <= q || q + cs <= p
  {
    hide Pow2, GuestOffset;
    GuestOffsetExact(clusterBits, i, j);
    GuestOffsetExact(clusterBits, i', j');
    var l2, cs := Pow2(clusterBits - 3), Pow2(clusterBits);
    var c, d := i * l2 + j, i' * l2 + j';
    DivMod(i, l2, j);
    DivMod(i', l2, j');
    if c < d {
      ClustersDisjoint(c, d, cs);
    } else {
      ClustersDisjoint(d, c, cs);
    }
  }

  // ---- the virtual disk ------------------------------------------------------------

  /** pread of exactly n bytes: what would end beyond the largest offset is refused, a short read is
      an I/O error. */
  function ReadAll(file: Bytes, n: nat, offset: nat): (r: Result<Bytes>)
    ensures r.Ok? ==> |r.value| == n
  {
    if offset + n > OFF_MAX then Err(EINVAL)
    else if n == 0 then Ok([])
    else if offset + n <= |file| then Ok(file[offset..offset + n])
    else Err(EIO)
  }

  /** An image whose header is verified and whose first-level table is loaded. inflate is
      the raw deflate decoder: the output of the stream at the start of its input, if any. */
  datatype Disk = Disk(img: Bytes, header: Header, l1: Bytes, inflate: Bytes -> Option<Bytes>) {
    predicate Valid() {
      && 9 <= header.clusterBits <= 21 && header.l1Size <= L1_SIZE_MAX && |l1| == 8 * header.l1Size
      && header.size <= OFF_MAX
    }

    function ClusterSize(): (n: nat)
      ensures n > 0
    {
      Pow2(header.clusterBits)
    }

    /** Where guest cluster c begins. */
    function Start(c: nat): nat {
      hide Pow2;
      c * ClusterSize()
    }

    /** Entries of a second-level table. */
    function L2Size(): (n: nat)
      requires Valid()
      ensures n > 0
    {
      Pow2(header.clusterBits - 3)
    }
  }

  /** The first guest cluster of second-level table i. */
  function FirstCluster(d: Disk, i: nat): nat
    requires d.Valid()
  {
    hide Pow2;
    i * d.L2Size()
  }

  function TableEntry(table: Bytes, k: nat): nat
    requires 8 * k + 8 <= |table|
  {
    FromBigEndian(table[8 * k..8 * k + 8])
  }

  datatype Lookup = Unreadable(error: Errno) | Zeroes | Holds(data: Bytes)

  /** What a mapping of the second-level table stands for. */
  function ReadMapping(d: Disk, m: Mapping): (r: Lookup)
    requires d.Valid()
    ensures r.Holds? ==> |r.data| == d.ClusterSize()
  {
    match m
    case Unsupported => Unreadable(ENOTSUP)
    case Hole => Zeroes
    case Standard(offset) =>
      (match ReadAll(d.img, d.ClusterSize(), offset)
       case Ok(data) => Holds(data)
       case Err(e) => Unreadable(e))
    case Compressed(offset, size) =>
      match ReadAll(d.img, size, offset)
      case Ok(packed) =>
        (match d.inflate(packed)
         case Some(data) => if |data| == d.ClusterSize() then Holds(data) else Unreadable(EIO)
         case None => Unreadable(EIO))
      case Err(e) => Unreadable(e)
  }

  datatype Table = NoTable | BrokenTable(error: Errno) | HasTable(bytes: Bytes)

  /** The second-level table behind entry i of the first-level table. */
  function L2Table(d: Disk, i: nat): (t: Table)
    requires d.Valid() && i < d.header.l1Size
    ensures t.HasTable? ==> |t.bytes| == d.ClusterSize()
  {
    match NormalizeOffset(d.header.clusterBits, TableEntry(d.l1, i), false)
    case Hole => NoTable
    case Standard(offset) =>
      (match ReadAll(d.img, d.ClusterSize(), offset)
       case Ok(bytes) => HasTable(bytes)
       case Err(e) => BrokenTable(e))
    case _ => BrokenTable(ENOTSUP)
  }

  lemma TableHoldsEntries(d: Disk)
    requires d.Valid()
    ensures d.ClusterSize() == 8 * d.L2Size()
  {
    hide Pow2;
    Pow2Add(d.header.clusterBits - 3, 3);
    Pow2Of3();
  }

  lemma Pow2Of3()
    ensures Pow2(3) == 8
  {
  }

  function EntryMapping(d: Disk, table: Bytes, j: nat): Mapping
    requires d.Valid() && |table| == d.ClusterSize() && j < d.L2Size()
  {
    TableHoldsEntries(d);
    NormalizeOffset(d.header.clusterBits, TableEntry(table, j), true)
  }

  /** Entry j of the second-level table behind entry i of the first-level table. */
  function ReadEntry(d: Disk, i: nat, j: nat): (r: Lookup)
    requires d.Valid() && i < d.header.l1Size && j < d.L2Size()
    ensures r.Holds? ==> |r.data| == d.ClusterSize()
  {
    match L2Table(d, i)
    case NoTable => Zeroes
    case BrokenTable(e) => Unreadable(e)
    case HasTable(t) => ReadMapping(d, EntryMapping(d, t, j))
  }

  function TableOf(c: nat, l2Size: nat): nat
    requires l2Size > 0
  {
    c / l2Size
  }

  function SlotOf(c: nat, l2Size: nat): (j: nat)
    requires l2Size > 0
    ensures j < l2Size
  {
    c % l2Size
  }

  /** Guest cluster c: the two table indices are its quotient and remainder, as in the section
      "Cluster mapping" of the format. Behind the last table there is nothing. */
  function Cluster(d: Disk, c: nat): (r: Lookup)
    requires d.Valid()
    ensures r.Holds? ==> |r.data| == d.ClusterSize()
  {
    hide Pow2, ReadEntry, TableOf, SlotOf;
    var i, j := TableOf(c, d.L2Size()), SlotOf(c, d.L2Size());
    if i < d.header.l1Size then ReadEntry(d, i, j) else Zeroes
  }

  /** One byte of the virtual disk. */
  function GuestByte(d: Disk, p: nat): Byte
    requires d.Valid()
  {
    hide Pow2, Cluster;
    match Cluster(d, p / d.ClusterSize())
    case Holds(data) => data[p % d.ClusterSize()]
    case _ => 0
  }

  /** Size of the raw file once the clusters below n are in: the size from the header, or the
      end of the last cluster that holds data beyond it. */
  function Extent(d: Disk, n: nat): nat
    requires d.Valid()
  {
    if n == 0 then d.header.size
    else if Cluster(d, n - 1).Holds? && d.Start(n) > Extent(d, n - 1) then d.Start(n)
    else Extent(d, n - 1)
  }

  /** What stops the conversion at cluster c. */
  function ClusterError(d: Disk, c: nat): Option<Errno>
    requires d.Valid()
  {
    match Cluster(d, c)
    case Unreadable(e) => Some(e)
    case Zeroes => None
    case Holds(_) => if d.Start(c) + d.ClusterSize() > OFF_MAX then Some(EINVAL) else None
  }

  /** The first error below cluster n. */
  function FirstError(d: Disk, n: nat): Option<Errno>
    requires d.Valid()
  {
    if n == 0 then None
    else if FirstError(d, n - 1).Some? then FirstError(d, n - 1)
    else ClusterError(d, n - 1)
  }

  lemma {:induction false} FirstErrorStays(d: Disk, n: nat, m: nat)
    requires d.Valid() && n <= m && FirstError(d, n).Some?
    ensures FirstError(d, m) == FirstError(d, n)
    decreases m
  {
    hide ClusterError;
    if n < m {
      FirstErrorStays(d, n, m - 1);
    }
  }

  // ---- the raw file while it is being filled ---------------------------------------

  function Zeros(n: nat): (z: Bytes)
    ensures |z| == n && forall k :: 0 <= k < n ==> z[k] == 0
  {
    seq(n, i => 0)
  }

  /** pwrite: a gap in front of the data reads as zeroes. */
  function Stored(raw: Bytes, at: nat, data: Bytes): (r: Bytes)
    ensures |r| == if |raw| > at + |data| then |raw| else at + |data|
    ensures forall p :: 0 <= p < |r| ==>
              r[p] == if at <= p < at + |data| then data[p - at] else if p < |raw| then raw[p] else 0
  {
    var padded := if |raw| < at + |data| then raw + Zeros(at + |data| - |raw|) else raw;
    padded[..at] + data + padded[at + |data|..]
  }

  /** The clusters below n are in place, the rest of the file is zero. */
  ghost predicate Filled(d: Disk, raw: Bytes, n: nat)
    requires d.Valid()
  {
    && |raw| == Extent(d, n)
    && forall p :: 0 <= p < |raw| ==> raw[p] == if p / d.ClusterSize() < n then GuestByte(d, p) else 0
  }

  /** p lies in cluster c exactly when it lies between its ends. */
  lemma InCluster(p: nat, c: nat, cs: nat)
    requires cs > 0
    ensures p / cs == c <==> c * cs <= p < c * cs + cs
    ensures p / cs == c ==> p % cs == p - c * cs
  {
    if c * cs <= p < c * cs + cs {
      DivMod(c, cs, p - c * cs);
    }
    assert p == cs * (p / cs) + p % cs;
  }

  lemma FilledHole(d: Disk, raw: Bytes, n: nat)
    requires d.Valid() && Filled(d, raw, n) && Cluster(d, n).Zeroes?
    ensures Filled(d, raw, n + 1)
  {
    hide Pow2, Cluster;
  }

  lemma FilledCluster(d: Disk, raw: Bytes, n: nat)
    requires d.Valid() && Filled(d, raw, n) && Cluster(d, n).Holds?
    ensures Filled(d, Stored(raw, d.Start(n), Cluster(d, n).data), n + 1)
  {
    hide Pow2, Cluster, Stored;
    var cs, data := d.ClusterSize(), Cluster(d, n).data;
    var r := Stored(raw, n * cs, data);
    Distribute(n, 1, cs);
    forall p | 0 <= p < |r|
      ensures r[p] == if p / cs < n + 1 then GuestByte(d, p) else 0
    {
      InCluster(p, n, cs);
      if |raw| <= p < n * cs {
        BelowCluster(d, p, n);
      }
    }
  }

  /** Below cluster n, bytes behind the end of the file belong to no cluster with data. */
  lemma {:induction false} BelowCluster(d: Disk, p: nat, n: nat)
    requires d.Valid() && Extent(d, n) <= p < d.Start(n)
    ensures GuestByte(d, p) == 0 && p / d.ClusterSize() < n
    decreases n
  {
    hide Pow2, Cluster;
    var cs := d.ClusterSize();
    Distribute(n - 1, 1, cs);
    InCluster(p, n - 1, cs);
    if p < (n - 1) * cs {
      BelowCluster(d, p, n - 1);
    }
  }

  // ---- the conversion --------------------------------------------------------------

  /** The target file. */
  class RawFile {
    var data: Bytes

    constructor ()
      ensures data == []
    {
      data := [];
    }

    method Truncate(size: nat) returns (e: Option<Errno>)
      modifies this
      ensures e == if size > OFF_MAX then Some(EINVAL) else None
      ensures e.Some? ==> data == old(data)
      ensures e.None? ==>
                data == if size <= |old(data)| then old(data)[..size] else old(data) + Zeros(size - |old(data)|)
    {
      if size > OFF_MAX {
        return Some(EINVAL);
      }
      data := if size <= |data| then data[..size] else data + Zeros(size - |data|);
      return None;
    }

    /** pwrite refuses what would end beyond the largest offset. */
    method Write(bytes: Bytes, at: nat) returns (e: Option<Errno>)
      modifies this
      ensures e == if at + |bytes| > OFF_MAX then Some(EINVAL) else None
      ensures data == if e.None? then Stored(old(data), at, bytes) else old(data)
    {
      if at + |bytes| > OFF_MAX {
        return Some(EINVAL);
      }
      data := Stored(data, at, bytes);
      return None;
    }
  }

  /** Reading one cluster succeeded or not, and what the file is then. */
  ghost predicate ClusterDone(d: Disk, found: Lookup, at: nat, e: Option<Errno>, before: Bytes, after: Bytes)
    requires d.Valid()
  {
    match found
    case Unreadable(error) => e == Some(error) && after == before
    case Zeroes => e == None && after == before
    case Holds(data) =>
      if at + d.ClusterSize() > OFF_MAX then e == Some(EINVAL) && after == before
      else e == None && after == Stored(before, at, data)
  }

  method CopyCluster(d: Disk, source: nat, raw: RawFile, at: nat) returns (e: Option<Errno>)
    requires d.Valid()
    modifies raw
    ensures ClusterDone(d, ReadMapping(d, Standard(source)), at, e, old(raw.data), raw.data)
  {
    hide Pow2, Stored;
    var l := ReadAll(d.img, d.ClusterSize(), source);
    if l.Err? {
      return Some(l.error);
    }
    e := raw.Write(l.value, at);
  }

  method DecompressCluster(d: Disk, source: nat, size: nat, raw: RawFile, at: nat) returns (e: Option<Errno>)
    requires d.Valid()
    modifies raw
    ensures ClusterDone(d, ReadMapping(d, Compressed(source, size)), at, e, old(raw.data), raw.data)
  {
    hide Pow2, Stored;
    var l := ReadAll(d.img, size, source);
    if l.Err? {
      return Some(l.error);
    }
    var inflated := d.inflate(l.value);
    if inflated.None? || |inflated.value| != d.ClusterSize() {
      return Some(EIO);
    }
    e := raw.Write(inflated.value, at);
  }

  /** One turn of the inner loop. */
  method ConvertEntry(d: Disk, table: Bytes, i: nat, j: nat, raw: RawFile) returns (e: Option<Errno>)
    requires d.Valid() && |table| == d.ClusterSize() && i < d.header.l1Size && j < d.L2Size()
    modifies raw
    ensures ClusterDone(d, ReadMapping(d, EntryMapping(d, table, j)), GuestOffset(d.header.clusterBits, i, j), e,
                        old(raw.data), raw.data)
  {
    hide Pow2, Stored, NormalizeOffset, GuestOffset, ReadAll;
    var p := GuestOffset(d.header.clusterBits, i, j);
    match EntryMapping(d, table, j) {
      case Unsupported => e := Some(ENOTSUP);
      case Hole => e := None;
      case Standard(offset) => e := CopyCluster(d, offset, raw, p);
      case Compressed(offset, size) => e := DecompressCluster(d, offset, size, raw, p);
    }
  }

  /** Every guest cluster belongs to one entry of one table. */
  lemma ClusterOfEntry(d: Disk, i: nat, j: nat)
    requires d.Valid() && i < d.header.l1Size && j < d.L2Size()
    ensures Cluster(d, FirstCluster(d, i) + j) == ReadEntry(d, i, j)
    ensures GuestOffset(d.header.clusterBits, i, j) == d.Start(FirstCluster(d, i) + j)
  {
    hide Pow2, ReadEntry, GuestOffset;
    DivMod(i, d.L2Size(), j);
    GuestOffsetExact(d.header.clusterBits, i, j);
  }

  /** The conversion as far as the clusters below n: no error yet, and the file is filled. */
  ghost predicate Converted(d: Disk, raw: Bytes, n: nat)
    requires d.Valid()
  {
    FirstError(d, n).None? && Filled(d, raw, n)
  }

  lemma ClusterDoneConverts(d: Disk, n: nat, e: Option<Errno>, before: Bytes, after: Bytes)
    requires d.Valid() && Converted(d, before, n) && ClusterDone(d, Cluster(d, n), d.Start(n), e, before, after)
    ensures FirstError(d, n + 1) == e
    ensures e.None? ==> Converted(d, after, n + 1)
  {
    hide Pow2, Cluster, Filled, Stored;
    if Cluster(d, n).Zeroes? {
      FilledHole(d, before, n);
    } else if e.None? {
      FilledCluster(d, before, n);
    }
  }

  /** The inner loop: all clusters of one second-level table. */
  method ConvertTable(d: Disk, table: Bytes, i: nat, raw: RawFile) returns (e: Option<Errno>)
    requires d.Valid() && i < d.header.l1Size && L2Table(d, i) == HasTable(table)
    requires Converted(d, raw.data, FirstCluster(d, i))
    modifies raw
    ensures FirstError(d, FirstCluster(d, i) + d.L2Size()) == e
    ensures e.None? ==> Converted(d, raw.data, FirstCluster(d, i) + d.L2Size())
  {
    hide Pow2, Cluster, Converted, L2Table, FirstError, ClusterDone, ReadMapping, EntryMapping;
    var j := 0;
    ghost var base := FirstCluster(d, i);
    while j < d.L2Size()
      invariant j <= d.L2Size() && Converted(d, raw.data, base + j)
    {
      ghost var before := raw.data;
      e := ConvertEntry(d, table, i, j, raw);
      ClusterOfEntry(d, i, j);
      ClusterDoneConverts(d, base + j, e, before, raw.data);
      if e.Some? {
        FirstErrorStays(d, base + j + 1, base + d.L2Size());
        return;
      }
      j := j + 1;
    }
    e := None;
    ConvertedNoError(d, raw.data, base + j);
  }

  lemma ConvertedNoError(d: Disk, raw: Bytes, n: nat)
    requires d.Valid() && Converted(d, raw, n)
    ensures FirstError(d, n) == None
  {
  }

  lemma {:induction false} SkippedTable(d: Disk, i: nat, j: nat, raw: Bytes)
    requires d.Valid() && i < d.header.l1Size && L2Table(d, i) == NoTable && j <= d.L2Size()
    requires Converted(d, raw, FirstCluster(d, i))
    ensures Converted(d, raw, FirstCluster(d, i) + j)
  {
    hide Pow2, L2Table, Cluster, Converted;
    if j > 0 {
      SkippedTable(d, i, j - 1, raw);
      ClusterOfEntry(d, i, j - 1);
      ClusterDoneConverts(d, FirstCluster(d, i) + (j - 1), None, raw, raw);
    }
  }

  lemma NextTable(d: Disk, i: nat)
    requires d.Valid()
    ensures FirstCluster(d, i + 1) == FirstCluster(d, i) + d.L2Size()
  {
    hide Pow2;
    Distribute(i, 1, d.L2Size());
  }

  lemma TablesBelow(d: Disk, i: nat, n: nat)
    requires d.Valid() && i <= n
    ensures FirstCluster(d, i) <= FirstCluster(d, n)
  {
    hide Pow2;
    MulMonotone(i, n, d.L2Size());
  }

  lemma BrokenTableStops(d: Disk, i: nat, raw: Bytes)
    requires d.Valid() && i < d.header.l1Size && L2Table(d, i).BrokenTable? && Converted(d, raw, FirstCluster(d, i))
    ensures FirstError(d, FirstCluster(d, i) + 1) == Some(L2Table(d, i).error)
  {
    hide Pow2, L2Table, Cluster, Filled;
    ClusterOfEntry(d, i, 0);
    var c := FirstCluster(d, i);
    assert FirstError(d, c + 1) == ClusterError(d, c);
  }

  /** One turn of the outer loop. */
  method ConvertL1Entry(d: Disk, i: nat, raw: RawFile) returns (e: Option<Errno>)
    requires d.Valid() && i < d.header.l1Size && Converted(d, raw.data, FirstCluster(d, i))
    modifies raw
    ensures e.Some? ==> FirstError(d, FirstCluster(d, d.header.l1Size)) == e
    ensures e.None? ==> Converted(d, raw.data, FirstCluster(d, i + 1))
  {
    hide Pow2, Cluster, Converted, FirstError, FirstCluster, ReadAll;
    NextTable(d, i);
    TablesBelow(d, i + 1, d.header.l1Size);
    var m := NormalizeOffset(d.header.clusterBits, TableEntry(d.l1, i), false);
    if m.Hole? {
      e := None;
      SkippedTable(d, i, d.L2Size(), raw.data);
      return;
    }
    var table := if m.Standard? then ReadAll(d.img, d.ClusterSize(), m.offset) else Err(ENOTSUP);
    if table.Err? {
      e := Some(table.error);
      BrokenTableStops(d, i, raw.data);
      FirstErrorStays(d, FirstCluster(d, i) + 1, FirstCluster(d, d.header.l1Size));
    } else {
      e := ConvertTable(d, table.value, i, raw);
      if e.Some? {
        FirstErrorStays(d, FirstCluster(d, i + 1), FirstCluster(d, d.header.l1Size));
      }
    }
  }

  /** Opening the image: header, room for the virtual size, first-level table. */
  function Open(img: Bytes, inflate: Bytes -> Option<Bytes>): (r: Result<Disk>)
    ensures r.Ok? ==> r.value.Valid()
  {
    match ReadAll(img, HEADER_BYTES, 0)
    case Err(e) => Err(e)
    case Ok(b) =>
      var h := ParseHeader(b);
      match VerifyHeader(h)
      case Some(e) => Err(e)
      case None =>
        if h.size > OFF_MAX then Err(EINVAL)
        else
          match ReadAll(img, 8 * h.l1Size, h.l1TableOffset)
          case Err(e) => Err(e)
          case Ok(l1) => Ok(Disk(img, h, l1, inflate))
  }

  /** The raw file holds the virtual disk: its size, and every byte. */
  ghost predicate IsVirtualDisk(d: Disk, raw: Bytes)
    requires d.Valid()
  {
    && |raw| == Extent(d, FirstCluster(d, d.header.l1Size))
    && forall p :: 0 <= p < |raw| ==> raw[p] == GuestByte(d, p)
  }

  /** The virtual disk as a whole. */
  ghost function VirtualDisk(d: Disk): Bytes
    requires d.Valid()
  {
    seq(Extent(d, FirstCluster(d, d.header.l1Size)), p requires 0 <= p => GuestByte(d, p))
  }

  lemma VirtualDiskIff(d: Disk, raw: Bytes)
    requires d.Valid()
    ensures IsVirtualDisk(d, raw) <==> raw == VirtualDisk(d)
  {
    hide Pow2, GuestByte, FirstCluster, Extent;
    if IsVirtualDisk(d, raw) {
      assert forall p :: 0 <= p < |raw| ==> raw[p] == VirtualDisk(d)[p];
    }
  }

  lemma NothingBehindTables(d: Disk, c: nat)
    requires d.Valid() && c >= FirstCluster(d, d.header.l1Size)
    ensures Cluster(d, c) == Zeroes
  {
    hide Pow2, ReadEntry;
    InTables(c, d.L2Size(), d.header.l1Size);
  }

  lemma InTables(c: nat, l2: nat, n: nat)
    requires l2 > 0
    ensures c / l2 < n ==> c < n * l2
  {
    var i := c / l2;
    assert c == l2 * i + c % l2;
    if i < n {
      MulMonotone(i + 1, n, l2);
      Distribute(i, 1, l2);
    }
  }

  lemma FilledIsVirtualDisk(d: Disk, raw: Bytes)
    requires d.Valid() && Filled(d, raw, FirstCluster(d, d.header.l1Size))
    ensures IsVirtualDisk(d, raw)
  {
    hide Pow2, Cluster, FirstCluster;
    forall p | 0 <= p < |raw|
      ensures raw[p] == GuestByte(d, p)
    {
      if p / d.ClusterSize() >= FirstCluster(d, d.header.l1Size) {
        NothingBehindTables(d, p / d.ClusterSize());
      }
    }
  }

  lemma ConvertedIsVirtualDisk(d: Disk, raw: Bytes)
    requires d.Valid() && Converted(d, raw, FirstCluster(d, d.header.l1Size))
    ensures IsVirtualDisk(d, raw) && FirstError(d, FirstCluster(d, d.header.l1Size)).None?
  {
    hide Pow2, Cluster, FirstCluster, FirstError, IsVirtualDisk;
    FilledIsVirtualDisk(d, raw);
  }

  lemma EmptyConverted(d: Disk, raw: Bytes)
    requires d.Valid() && |raw| == d.header.size && forall p :: 0 <= p < |raw| ==> raw[p] == 0
    ensures Converted(d, raw, FirstCluster(d, 0))
  {
    hide Pow2, Cluster;
    assert FirstCluster(d, 0) == 0;
  }

  /** What qcow2_convert returns. */
  function ConvertError(img: Bytes, inflate: Bytes -> Option<Bytes>): Option<Errno> {
    match Open(img, inflate)
    case Err(e) => Some(e)
    case Ok(d) => FirstError(d, FirstCluster(d, d.header.l1Size))
  }

  /** The conversion succeeds exactly when the image opens and no cluster is unreadable or out
      of reach; the file is then the virtual disk, whatever it held before. */
  method Qcow2Convert(img: Bytes, inflate: Bytes -> Option<Bytes>, raw: RawFile) returns (e: Option<Errno>)
    modifies raw
    ensures e == ConvertError(img, inflate)
    ensures e.None? ==> Open(img, inflate).Ok? && IsVirtualDisk(Open(img, inflate).value, raw.data)
  {
    hide Pow2, Cluster, FirstCluster, FirstError, IsVirtualDisk, Converted, ReadAll, ParseHeader;
    var b := ReadAll(img, HEADER_BYTES, 0);
    if b.Err? {
      return Some(b.error);
    }
    var h := ParseHeader(b.value);
    e := VerifyHeader(h);
    if e.Some? {
      return;
    }
    e := raw.Truncate(0);
    e := raw.Truncate(h.size);
    if e.Some? {
      return;
    }
    var l1 := ReadAll(img, 8 * h.l1Size, h.l1TableOffset);
    if l1.Err? {
      return Some(l1.error);
    }
    var d := Disk(img, h, l1.value, inflate);
    e := ConvertTables(d, raw);
  }

  method ConvertTables(d: Disk, raw: RawFile) returns (e: Option<Errno>)
    requires d.Valid() && |raw.data| == d.header.size && forall p :: 0 <= p < |raw.data| ==> raw.data[p] == 0
    modifies raw
    ensures e == FirstError(d, FirstCluster(d, d.header.l1Size))
    ensures e.None? ==> IsVirtualDisk(d, raw.data)
  {
    hide Pow2, Cluster, FirstCluster, FirstError, IsVirtualDisk, Converted;
    EmptyConverted(d, raw.data);
    var i := 0;
    while i < d.header.l1Size
      invariant i <= d.header.l1Size && Converted(d, raw.data, FirstCluster(d, i))
    {
      e := ConvertL1Entry(d, i, raw);
      if e.Some? {
        return;
      }
      i := i + 1;
    }
    e := None;
    ConvertedIsVirtualDisk(d, raw.data);
  }

  // ---- images that may or may not be QCOW2 ------------------------------------------

  const MAGIC_BYTES: nat := 4

  /** qcow2_detect, on an image that is long enough. */
  predicate IsQcow2(img: Bytes)
    requires |img| >= MAGIC_BYTES
  {
    FromBigEndian(img[..MAGIC_BYTES]) == QCOW2_MAGIC
  }

  /** The raw image that a download stands for: the virtual disk of a QCOW2 image, else itself. */
  ghost function RawImage(img: Bytes, inflate: Bytes -> Option<Bytes>): Result<Bytes> {
    if |img| < MAGIC_BYTES then Err(EIO)
    else if !IsQcow2(img) then Ok(img)
    else
      match ConvertError(img, inflate)
      case Some(e) => Err(e)
      case None => if Open(img, inflate).Ok? then Ok(VirtualDisk(Open(img, inflate).value)) else Err(EIO)
  }

  lemma RawImageOfQcow2(img: Bytes, inflate: Bytes -> Option<Bytes>, raw: Bytes)
    requires |img| >= MAGIC_BYTES && IsQcow2(img)
    requires ConvertError(img, inflate).None? ==>
               Open(img, inflate).Ok? && IsVirtualDisk(Open(img, inflate).value, raw)
    ensures RawImage(img, inflate) == match ConvertError(img, inflate)
                                      case Some(e) => Err(e)
                                      case None => Ok(raw)
  {
    hide IsVirtualDisk, VirtualDisk, IsQcow2, Open, FirstError, FirstCluster;
    if ConvertError(img, inflate).None? {
      VirtualDiskIff(Open(img, inflate).value, raw);
    }
  }
}
