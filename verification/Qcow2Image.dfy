/**
 The conversion told from the bytes of the image: which words of its tables decide about a guest
 cluster, and what becomes of it. Nothing here refers to the way the tables are read.
 */
module Qcow2Image {
  import opened Bytes
  import opened Qcow2
  import opened Qcow2Convert
  import opened Qcow2Format
  import opened Wrappers

  // ---- words of the image --------------------------------------------------------------

  /** Eight bytes of the image, the most significant first. */
  predicate WordAt(img: Bytes, at: nat, w: nat) {
    && at + 8 <= |img|
    && w == 0x100_0000_0000_0000 * (img[at] as nat) + 0x1_0000_0000_0000 * (img[at + 1] as nat)
            + 0x100_0000_0000 * (img[at + 2] as nat) + 0x1_0000_0000 * (img[at + 3] as nat)
            + 0x100_0000 * (img[at + 4] as nat) + 0x1_0000 * (img[at + 5] as nat)
            + 0x100 * (img[at + 6] as nat) + (img[at + 7] as nat)
  }

  /** Four bytes of the image. */
  predicate HalfWordAt(img: Bytes, at: nat, w: nat) {
    && at + 4 <= |img|
    && w == 0x100_0000 * (img[at] as nat) + 0x1_0000 * (img[at + 1] as nat) + 0x100 * (img[at + 2] as nat)
            + (img[at + 3] as nat)
  }

  lemma HalfWordRead(s: Bytes)
    requires |s| == 4
    ensures HalfWordAt(s, 0, FromBigEndian(s))
  {
    var a, b, c := s[..3], s[..3][..2], s[..3][..2][..1];
    assert FromBigEndian(s) == 256 * FromBigEndian(a) + s[3];
    assert FromBigEndian(a) == 256 * FromBigEndian(b) + s[2];
    assert FromBigEndian(b) == 256 * FromBigEndian(c) + s[1];
    assert c[..0] == [] && FromBigEndian(c) == s[0];
  }

  lemma WordRead(s: Bytes)
    requires |s| == 8
    ensures WordAt(s, 0, FromBigEndian(s))
  {
    var a, b, c, d := s[..7], s[..6], s[..5], s[..4];
    assert FromBigEndian(s) == 256 * FromBigEndian(a) + s[7];
    assert a[..6] == b && FromBigEndian(a) == 256 * FromBigEndian(b) + s[6];
    assert b[..5] == c && FromBigEndian(b) == 256 * FromBigEndian(c) + s[5];
    assert c[..4] == d && FromBigEndian(c) == 256 * FromBigEndian(d) + s[4];
    HalfWordRead(d);
  }

  /** The words of the image are what the tables and the header are read from. */
  lemma WordOf(img: Bytes, at: nat, w: nat)
    requires WordAt(img, at, w)
    ensures FromBigEndian(img[at..at + 8]) == w
  {
    WordRead(img[at..at + 8]);
  }

  lemma HalfWordOf(img: Bytes, at: nat, w: nat)
    requires HalfWordAt(img, at, w)
    ensures FromBigEndian(img[at..at + 4]) == w
  {
    HalfWordRead(img[at..at + 4]);
  }

  // ---- the header ----------------------------------------------------------------------

  /** The fields of the header that the conversion uses, at their places in the image. */
  datatype Fields = Fields(magic: nat, version: nat, backing: nat, clusterBits: nat, size: nat, crypt: nat, l1Size: nat,
                           l1Offset: nat, incompatible: nat, length: nat)

  predicate Reads(img: Bytes, f: Fields) {
    && |img| >= 104
    && HalfWordAt(img, 0, f.magic) && HalfWordAt(img, 4, f.version) && WordAt(img, 8, f.backing)
    && HalfWordAt(img, 20, f.clusterBits) && WordAt(img, 24, f.size) && HalfWordAt(img, 32, f.crypt)
    && HalfWordAt(img, 36, f.l1Size) && WordAt(img, 40, f.l1Offset)
    && WordAt(img, 72, f.incompatible) && HalfWordAt(img, 100, f.length)
  }

  /** An image that is accepted. */
  ghost predicate Acceptable(img: Bytes, f: Fields) {
    && f.magic == 0x514649fb && (f.version == 2 || f.version == 3) && f.crypt == 0
    && 9 <= f.clusterBits <= 21 && f.size % Pow2(f.clusterBits) == 0 && f.size < 0x8000_0000_0000_0000
    && f.l1Size <= 0x200_0000 && f.l1Offset + 8 * f.l1Size < 0x8000_0000_0000_0000
    && (f.l1Size > 0 ==> f.l1Offset + 8 * f.l1Size <= |img|)
    && (f.version == 3 ==> f.incompatible == 0 && f.length >= 104)
  }

  lemma SliceOfHeader(img: Bytes, lo: nat, hi: nat)
    requires lo <= hi <= HEADER_BYTES <= |img|
    ensures img[0..HEADER_BYTES][lo..hi] == img[lo..hi]
  {
    SubSlice(img, 0, HEADER_BYTES, lo, hi);
  }

  lemma HeaderRead(img: Bytes, f: Fields)
    requires Reads(img, f)
    ensures var h := ParseHeader(img[0..HEADER_BYTES]);
            && h.magic == f.magic && h.version == f.version && h.backingFileOffset == f.backing
            && h.clusterBits == f.clusterBits && h.size == f.size && h.cryptMethod == f.crypt && h.l1Size == f.l1Size
            && h.l1TableOffset == f.l1Offset && h.incompatible == f.incompatible
            && (f.version >= 3 ==> h.headerLength == f.length)
  {
    hide FromBigEndian, WordAt, HalfWordAt;
    HalfField(img, 0, f.magic);
    HalfField(img, 4, f.version);
    WholeField(img, 8, f.backing);
    HalfField(img, 20, f.clusterBits);
    WholeField(img, 24, f.size);
    HalfField(img, 32, f.crypt);
    HalfField(img, 36, f.l1Size);
    WholeField(img, 40, f.l1Offset);
    WholeField(img, 72, f.incompatible);
    HalfField(img, 100, f.length);
  }

  lemma WholeField(img: Bytes, at: nat, w: nat)
    requires at + 8 <= HEADER_BYTES <= |img| && WordAt(img, at, w)
    ensures FromBigEndian(img[0..HEADER_BYTES][at..at + 8]) == w
  {
    hide FromBigEndian;
    SliceOfHeader(img, at, at + 8);
    WordOf(img, at, w);
  }

  lemma HalfField(img: Bytes, at: nat, w: nat)
    requires at + 4 <= HEADER_BYTES <= |img| && HalfWordAt(img, at, w)
    ensures FromBigEndian(img[0..HEADER_BYTES][at..at + 4]) == w
  {
    hide FromBigEndian;
    SliceOfHeader(img, at, at + 4);
    HalfWordOf(img, at, w);
  }

  /** An image opens exactly when its header is acceptable and its first-level table is there. */
  lemma OpensIff(img: Bytes, f: Fields, inflate: Bytes -> Option<Bytes>)
    requires Reads(img, f)
    ensures Open(img, inflate).Ok? <==> Acceptable(img, f)
    ensures Acceptable(img, f) ==>
              var d := Open(img, inflate).value;
              && d.img == img && d.inflate == inflate && d.header.clusterBits == f.clusterBits &&
                 d.header.size == f.size
              && d.header.l1Size == f.l1Size && d.header.backingFileOffset == f.backing
              && d.l1 == if f.l1Size == 0 then [] else img[f.l1Offset..f.l1Offset + 8 * f.l1Size]
  {
    hide FromBigEndian, WordAt, HalfWordAt, ParseHeader, Pow2;
    HeaderRead(img, f);
  }

  /** Otherwise the first thing that is wrong decides about the error: the image is no QCOW2 image or
      broken, or it asks for something that is not supported. */
  lemma OpenErrors(img: Bytes, f: Fields, inflate: Bytes -> Option<Bytes>)
    requires Reads(img, f) && !Acceptable(img, f)
    ensures Open(img, inflate) == Err(
              if f.magic != 0x514649fb then EBADMSG
              else if f.version < 2 || f.version > 3 || f.crypt != 0 then ENOTSUP
              else if f.clusterBits < 9 || f.clusterBits > 21 || f.size % Pow2(f.clusterBits) != 0 then EBADMSG
              else if f.l1Size > 0x200_0000 then EBADMSG
              else if f.version == 3 && f.incompatible != 0 then ENOTSUP
              else if f.version == 3 && f.length < 104 then EBADMSG
              else if f.size >= 0x8000_0000_0000_0000 then EINVAL
              else if f.l1Offset + 8 * f.l1Size >= 0x8000_0000_0000_0000 then EINVAL
              else EIO)
  {
    hide FromBigEndian, WordAt, HalfWordAt, ParseHeader, Pow2;
    HeaderRead(img, f);
  }

  /** What is too short for a header does not open. */
  lemma ShortImage(img: Bytes, inflate: Bytes -> Option<Bytes>)
    requires |img| < 104
    ensures Open(img, inflate) == Err(EIO)
  {
  }

  // ---- a cluster -----------------------------------------------------------------------

  /** The conversion of img succeeded and left raw. */
  ghost predicate Converts(img: Bytes, f: Fields, inflate: Bytes -> Option<Bytes>, raw: Bytes) {
    && Reads(img, f) && Acceptable(img, f) && Open(img, inflate).Ok? && ConvertError(img, inflate).None?
    && IsVirtualDisk(Open(img, inflate).value, raw)
  }

  /** The address of the cluster behind entry j of the table behind entry i. */
  function Address(f: Fields, i: nat, j: nat): nat
    requires 9 <= f.clusterBits <= 21
  {
    hide Pow2;
    (i * Pow2(f.clusterBits - 3) + j) * Pow2(f.clusterBits)
  }

  ghost function DiskOf(img: Bytes, f: Fields, inflate: Bytes -> Option<Bytes>): (d: Disk)
    requires Reads(img, f) && Acceptable(img, f)
    ensures d.Valid() && Open(img, inflate) == Ok(d)
  {
    hide Pow2, Reads;
    OpensIff(img, f, inflate);
    Open(img, inflate).value
  }

  lemma FirstLevelWord(img: Bytes, f: Fields, inflate: Bytes -> Option<Bytes>, i: nat, w: nat)
    requires Reads(img, f) && Acceptable(img, f) && i < f.l1Size && WordAt(img, f.l1Offset + 8 * i, w)
    ensures var d := DiskOf(img, f, inflate); i < d.header.l1Size && TableEntry(d.l1, i) == w
  {
    hide Pow2, FromBigEndian, WordAt, Reads;
    OpensIff(img, f, inflate);
    var d := DiskOf(img, f, inflate);
    SubSlice(img, f.l1Offset, f.l1Offset + 8 * f.l1Size, 8 * i, 8 * i + 8);
    WordOf(img, f.l1Offset + 8 * i, w);
  }

  lemma SecondLevelWord(d: Disk, t: nat, j: nat, w: nat)
    requires d.Valid() && j < d.L2Size() && t + d.ClusterSize() <= |d.img| && WordAt(d.img, t + 8 * j, w)
    ensures var table := d.img[t..t + d.ClusterSize()];
            EntryMapping(d, table, j) == NormalizeOffset(d.header.clusterBits, w, true)
  {
    hide Pow2, FromBigEndian, WordAt, NormalizeOffset;
    TableHoldsEntries(d);
    SubSlice(d.img, t, t + d.ClusterSize(), 8 * j, 8 * j + 8);
    WordOf(d.img, t + 8 * j, w);
  }

  /** No cluster of a table is unreadable after success. */
  lemma Readable(d: Disk, i: nat, j: nat)
    requires d.Valid() && FirstError(d, FirstCluster(d, d.header.l1Size)).None? && i < d.header.l1Size && j < d.L2Size()
    ensures !ReadEntry(d, i, j).Unreadable? && FirstCluster(d, i) + j < FirstCluster(d, d.header.l1Size)
    ensures Cluster(d, FirstCluster(d, i) + j) == ReadEntry(d, i, j)
  {
    hide Pow2, FirstError, ReadEntry, FirstCluster, Cluster;
    ClusterOfEntry(d, i, j);
    NextTable(d, i);
    TablesBelow(d, i + 1, d.header.l1Size);
    NoErrorBelow(d, FirstCluster(d, d.header.l1Size), FirstCluster(d, i) + j);
  }

  lemma {:induction false} ExtentCovers(d: Disk, c: nat, n: nat)
    requires d.Valid() && c < n && Cluster(d, c).Holds?
    ensures d.Start(c) + d.ClusterSize() <= Extent(d, n)
    decreases n
  {
    hide Pow2, Cluster;
    Distribute(c, 1, d.ClusterSize());
    if c < n - 1 {
      ExtentCovers(d, c, n - 1);
    }
  }

  /** A byte of a cluster, in the file. */
  lemma ByteOfCluster(d: Disk, raw: Bytes, i: nat, j: nat, k: nat)
    requires d.Valid() && FirstError(d, FirstCluster(d, d.header.l1Size)).None? && IsVirtualDisk(d, raw)
    requires i < d.header.l1Size && j < d.L2Size() && k < d.ClusterSize()
    ensures var p := d.Start(FirstCluster(d, i) + j) + k;
            && !ReadEntry(d, i, j).Unreadable?
            && (ReadEntry(d, i, j).Holds? ==> p < |raw| && raw[p] == ReadEntry(d, i, j).data[k])
            && (ReadEntry(d, i, j).Zeroes? && p < |raw| ==> raw[p] == 0)
  {
    hide Pow2, FirstError, ReadEntry, FirstCluster, Cluster, Extent;
    Readable(d, i, j);
    var c := FirstCluster(d, i) + j;
    DivMod(c, d.ClusterSize(), k);
    if ReadEntry(d, i, j).Holds? {
      ExtentCovers(d, c, FirstCluster(d, d.header.l1Size));
    }
  }

  lemma AddressIs(d: Disk, f: Fields, i: nat, j: nat)
    requires d.Valid() && d.header.clusterBits == f.clusterBits
    ensures Address(f, i, j) == d.Start(FirstCluster(d, i) + j)
    ensures d.L2Size() == Pow2(f.clusterBits - 3) && d.ClusterSize() == Pow2(f.clusterBits)
  {
    hide Pow2;
  }

  /** What the converted file holds of a cluster: a lookup in the table at t, which is one of the
      image, through its word w. */
  lemma ClusterLands(img: Bytes, f: Fields, inflate: Bytes -> Option<Bytes>, raw: Bytes, i: nat, j: nat, copied: bool,
                     t: nat, w: nat, k: nat)
    requires Converts(img, f, inflate, raw) && i < f.l1Size && j < Pow2(f.clusterBits - 3) && k < Pow2(f.clusterBits)
    requires 0 < t < Pow2(62) && t % 2 == 0 && WordAt(img, f.l1Offset + 8 * i, EncodeStandard(copied, t, false))
    requires WordAt(img, t + 8 * j, w)
    ensures var d, p := DiskOf(img, f, inflate), Address(f, i, j) + k;
            var r := ReadMapping(d, NormalizeOffset(f.clusterBits, w, true));
            && d.img == img && d.inflate == inflate && d.ClusterSize() == Pow2(f.clusterBits) && !r.Unreadable?
            && (r.Holds? ==> p < |raw| && raw[p] == r.data[k]) && (r.Zeroes? && p < |raw| ==> raw[p] == 0)
  {
    hide Pow2, FirstError, FirstCluster, Reads, Open, IsVirtualDisk, WordAt, ReadMapping, NormalizeOffset,
         EncodeStandard,
         TableEntry, EntryMapping, Acceptable;
    OpensIff(img, f, inflate);
    AcceptableBits(img, f);
    var d := DiskOf(img, f, inflate);
    AddressIs(d, f, i, j);
    FirstLevelWord(img, f, inflate, i, EncodeStandard(copied, t, false));
    DecodeStandard(f.clusterBits, copied, t, false, false);
    ByteOfCluster(d, raw, i, j, k);
    TableAt(d, i, t, j);
    SecondLevelWord(d, t, j, w);
  }

  lemma AcceptableBits(img: Bytes, f: Fields)
    requires Acceptable(img, f)
    ensures 9 <= f.clusterBits <= 21
  {
  }

  /** The table that a readable entry goes through. */
  lemma TableAt(d: Disk, i: nat, t: nat, j: nat)
    requires d.Valid() && i < d.header.l1Size && j < d.L2Size() && !ReadEntry(d, i, j).Unreadable?
    requires NormalizeOffset(d.header.clusterBits, TableEntry(d.l1, i), false) == Standard(t)
    ensures t + d.ClusterSize() <= |d.img|
    ensures ReadEntry(d, i, j) == ReadMapping(d, EntryMapping(d, d.img[t..t + d.ClusterSize()], j))
  {
    hide Pow2, NormalizeOffset, TableEntry, EntryMapping, ReadMapping;
  }

  /** A standard descriptor: the cluster is the bytes of the image at its offset. */
  lemma StandardCluster(img: Bytes, f: Fields, inflate: Bytes -> Option<Bytes>, raw: Bytes, i: nat, j: nat,
                        copied: bool, t: nat, copied': bool, o: nat, k: nat)
    requires Converts(img, f, inflate, raw) && i < f.l1Size && j < Pow2(f.clusterBits - 3) && k < Pow2(f.clusterBits)
    requires 0 < t < Pow2(62) && t % 2 == 0 && WordAt(img, f.l1Offset + 8 * i, EncodeStandard(copied, t, false))
    requires 0 < o < Pow2(62) && o % 2 == 0 && WordAt(img, t + 8 * j, EncodeStandard(copied', o, false))
    ensures Address(f, i, j) + k < |raw| && o + k < |img| && raw[Address(f, i, j) + k] == img[o + k]
  {
    hide Pow2, Reads, WordAt, NormalizeOffset, EncodeStandard, Converts, DiskOf, Address;
    ConvertsBits(img, f, inflate, raw);
    ClusterLands(img, f, inflate, raw, i, j, copied, t, EncodeStandard(copied', o, false), k);
    DecodeStandard(f.clusterBits, copied', o, false, true);
    StandardData(DiskOf(img, f, inflate), o, k);
  }

  lemma ConvertsBits(img: Bytes, f: Fields, inflate: Bytes -> Option<Bytes>, raw: Bytes)
    requires Converts(img, f, inflate, raw)
    ensures 9 <= f.clusterBits <= 21 && Reads(img, f) && Acceptable(img, f)
  {
  }

  lemma StandardData(d: Disk, o: nat, k: nat)
    requires d.Valid() && k < d.ClusterSize() && !ReadMapping(d, Standard(o)).Unreadable?
    ensures var r := ReadMapping(d, Standard(o)); r.Holds? && o + k < |d.img| && r.data[k] == d.img[o + k]
  {
    hide Pow2;
  }

  /** The bytes of a compressed cluster: up to the end of its last sector. */
  function Packed(o: nat, sectors: nat): (n: nat)
    ensures o % 512 + n == (sectors + 1) * 512 && n > 0
  {
    (sectors + 1) * 512 - o % 512
  }

  /** The packed bytes inflate to data. */
  ghost predicate Inflates(img: Bytes, inflate: Bytes -> Option<Bytes>, o: nat, n: nat, data: Bytes) {
    o + n <= |img| && inflate(img[o..o + n]) == Some(data)
  }

  /** A compressed descriptor: the cluster is what its packed bytes inflate to. */
  lemma CompressedCluster(img: Bytes, f: Fields, inflate: Bytes -> Option<Bytes>, raw: Bytes, i: nat, j: nat,
                          copied: bool, t: nat, o: nat, sectors: nat, k: nat) returns (data: Bytes)
    requires 9 <= f.clusterBits <= 21
    requires Converts(img, f, inflate, raw) && i < f.l1Size && j < Pow2(f.clusterBits - 3) && k < Pow2(f.clusterBits)
    requires 0 < t < Pow2(62) && t % 2 == 0 && WordAt(img, f.l1Offset + 8 * i, EncodeStandard(copied, t, false))
    requires 0 < o < Pow2(62 - (f.clusterBits - 8)) && sectors < Pow2(f.clusterBits - 8)
    requires WordAt(img, t + 8 * j, EncodeCompressed(f.clusterBits, o, sectors))
    ensures Inflates(img, inflate, o, Packed(o, sectors), data) && |data| == Pow2(f.clusterBits)
    ensures Address(f, i, j) + k < |raw| && raw[Address(f, i, j) + k] == data[k]
  {
    hide Pow2, Reads, WordAt, NormalizeOffset, EncodeStandard, EncodeCompressed, Converts, DiskOf, Address, Packed;
    ConvertsBits(img, f, inflate, raw);
    ClusterLands(img, f, inflate, raw, i, j, copied, t, EncodeCompressed(f.clusterBits, o, sectors), k);
    Decoded(f.clusterBits, o, sectors);
    var d := DiskOf(img, f, inflate);
    CompressedData(d, o, Packed(o, sectors));
    data := ReadMapping(d, Compressed(o, Packed(o, sectors))).data;
  }

  lemma Decoded(clusterBits: nat, o: nat, sectors: nat)
    requires 9 <= clusterBits <= 21 && 0 < o < Pow2(62 - (clusterBits - 8)) && sectors < Pow2(clusterBits - 8)
    ensures NormalizeOffset(clusterBits, EncodeCompressed(clusterBits, o, sectors), true) ==
            Compressed(o, Packed(o, sectors))
  {
    hide Pow2, NormalizeOffset, EncodeCompressed;
    DecodeCompressed(clusterBits, o, sectors);
  }

  lemma CompressedData(d: Disk, o: nat, n: nat)
    requires d.Valid() && n > 0 && !ReadMapping(d, Compressed(o, n)).Unreadable?
    ensures var r := ReadMapping(d, Compressed(o, n));
            r.Holds? && Inflates(d.img, d.inflate, o, n, r.data) && |r.data| == d.ClusterSize()
  {
    hide Pow2;
  }

  /** A descriptor without an offset, or one that is flagged as zero: the cluster reads as zeroes. */
  lemma ZeroCluster(img: Bytes, f: Fields, inflate: Bytes -> Option<Bytes>, raw: Bytes, i: nat, j: nat, copied: bool,
                    t: nat, copied': bool, o: nat, zeroes: bool, k: nat)
    requires Converts(img, f, inflate, raw) && i < f.l1Size && j < Pow2(f.clusterBits - 3) && k < Pow2(f.clusterBits)
    requires 0 < t < Pow2(62) && t % 2 == 0 && WordAt(img, f.l1Offset + 8 * i, EncodeStandard(copied, t, false))
    requires o < Pow2(62) && o % 2 == 0 && (o == 0 || zeroes)
    requires WordAt(img, t + 8 * j, EncodeStandard(copied', o, zeroes))
    ensures Address(f, i, j) + k < |raw| ==> raw[Address(f, i, j) + k] == 0
  {
    hide Pow2, Reads, WordAt, NormalizeOffset, EncodeStandard, Converts, DiskOf, Address;
    ConvertsBits(img, f, inflate, raw);
    ClusterLands(img, f, inflate, raw, i, j, copied, t, EncodeStandard(copied', o, zeroes), k);
    DecodeStandard(f.clusterBits, copied', o, zeroes, true);
  }

  /** A first-level word without a table: all its clusters read as zeroes. */
  lemma ZeroTable(img: Bytes, f: Fields, inflate: Bytes -> Option<Bytes>, raw: Bytes, i: nat, j: nat, copied: bool,
                  t: nat, zeroes: bool, k: nat)
    requires Converts(img, f, inflate, raw) && i < f.l1Size && j < Pow2(f.clusterBits - 3) && k < Pow2(f.clusterBits)
    requires t < Pow2(62) && t % 2 == 0 && (t == 0 || zeroes)
    requires WordAt(img, f.l1Offset + 8 * i, EncodeStandard(copied, t, zeroes))
    ensures Address(f, i, j) + k < |raw| ==> raw[Address(f, i, j) + k] == 0
  {
    hide Pow2, FirstError, FirstCluster, Reads, Open, IsVirtualDisk, WordAt, NormalizeOffset, EncodeStandard,
         TableEntry, Acceptable;
    ConvertsBits(img, f, inflate, raw);
    OpensIff(img, f, inflate);
    var d := DiskOf(img, f, inflate);
    AddressIs(d, f, i, j);
    FirstLevelWord(img, f, inflate, i, EncodeStandard(copied, t, zeroes));
    DecodeStandard(f.clusterBits, copied, t, zeroes, false);
    ByteOfCluster(d, raw, i, j, k);
  }

  /** The file is at least as long as the disk, and behind the last table there is nothing but zeroes. */
  lemma RestIsZero(img: Bytes, f: Fields, inflate: Bytes -> Option<Bytes>, raw: Bytes)
    requires Converts(img, f, inflate, raw)
    ensures |raw| >= f.size
    ensures forall p :: Address(f, f.l1Size, 0) <= p < |raw| ==> raw[p] == 0
  {
    hide Pow2, FirstError, Reads, Open, Cluster;
    ConvertsBits(img, f, inflate, raw);
    OpensIff(img, f, inflate);
    var d := DiskOf(img, f, inflate);
    AddressIs(d, f, f.l1Size, 0);
    ExtentCoversSize(d, FirstCluster(d, d.header.l1Size));
    forall p | Address(f, f.l1Size, 0) <= p < |raw|
      ensures raw[p] == 0
    {
      BehindLast(d, p);
    }
  }

  lemma BehindLast(d: Disk, p: nat)
    requires d.Valid() && p >= d.Start(FirstCluster(d, d.header.l1Size))
    ensures GuestByte(d, p) == 0
  {
    hide Pow2, Cluster, FirstCluster;
    var n := FirstCluster(d, d.header.l1Size);
    InTables(p, d.ClusterSize(), n);
    NothingBehindTables(d, p / d.ClusterSize());
  }

  // ---- what the format says ------------------------------------------------------------

  /** The cluster of an address, and its byte if it is inherited. */
  lemma FormatOfOrigin(d: Disk, f: Fields, backing: nat -> Byte, i: nat, j: nat, k: nat)
    requires d.Valid() && d.header.clusterBits == f.clusterBits && j < d.L2Size() && k < d.ClusterSize()
    ensures var c, p := FirstCluster(d, i) + j, Address(f, i, j) + k;
            && TableOf(c, d.L2Size()) == i && SlotOf(c, d.L2Size()) == j && ClusterAt(d, p) == c
            && (OriginOf(d, c).FromBacking? ==>
                  FormatByte(d, backing, p) == if d.header.backingFileOffset == 0 then 0 else backing(p))
            && (OriginOf(d, c).AllZero? ==> FormatByte(d, backing, p) == 0)
  {
    hide Pow2, OriginOf;
    AddressIs(d, f, i, j);
    DivMod(i, d.L2Size(), j);
    DivMod(FirstCluster(d, i) + j, d.ClusterSize(), k);
  }

  /** Behind the first-level table everything is inherited. */
  lemma InheritedBehind(img: Bytes, f: Fields, inflate: Bytes -> Option<Bytes>, backing: nat -> Byte, i: nat, j: nat,
                        k: nat)
    requires Reads(img, f) && Acceptable(img, f) && 9 <= f.clusterBits <= 21
    requires i >= f.l1Size && j < Pow2(f.clusterBits - 3) && k < Pow2(f.clusterBits)
    ensures FormatByte(DiskOf(img, f, inflate), backing, Address(f, i, j) + k) ==
            if f.backing == 0 then 0 else backing(Address(f, i, j) + k)
  {
    hide Pow2, Reads, Open, Acceptable, FormatByte, FirstCluster;
    OpensIff(img, f, inflate);
    FormatOfOrigin(DiskOf(img, f, inflate), f, backing, i, j, k);
  }

  /** So are the clusters of a first-level word without a table. */
  lemma InheritedTable(img: Bytes, f: Fields, inflate: Bytes -> Option<Bytes>, backing: nat -> Byte, i: nat, j: nat,
                       copied: bool, k: nat)
    requires Reads(img, f) && Acceptable(img, f) && 9 <= f.clusterBits <= 21
    requires i < f.l1Size && j < Pow2(f.clusterBits - 3) && k < Pow2(f.clusterBits)
    requires WordAt(img, f.l1Offset + 8 * i, EncodeStandard(copied, 0, false))
    ensures FormatByte(DiskOf(img, f, inflate), backing, Address(f, i, j) + k) ==
            if f.backing == 0 then 0 else backing(Address(f, i, j) + k)
  {
    hide Pow2, Reads, Open, Acceptable, FormatByte, FirstCluster, NormalizeOffset, EncodeStandard, TableEntry, WordAt;
    OpensIff(img, f, inflate);
    var d := DiskOf(img, f, inflate);
    FormatOfOrigin(d, f, backing, i, j, k);
    FirstLevelWord(img, f, inflate, i, EncodeStandard(copied, 0, false));
    DecodeStandard(f.clusterBits, copied, 0, false, false);
  }

  /** And a cluster whose own word is empty; one that is flagged as zero hides the backing file. */
  lemma InheritedCluster(img: Bytes, f: Fields, inflate: Bytes -> Option<Bytes>, backing: nat -> Byte, i: nat, j: nat,
                         copied: bool, t: nat, copied': bool, o: nat, zeroes: bool, k: nat)
    requires Reads(img, f) && Acceptable(img, f) && 9 <= f.clusterBits <= 21
    requires i < f.l1Size && j < Pow2(f.clusterBits - 3) && k < Pow2(f.clusterBits)
    requires 0 < t < Pow2(62) && t % 2 == 0 && WordAt(img, f.l1Offset + 8 * i, EncodeStandard(copied, t, false))
    requires t + Pow2(f.clusterBits) <= |img| && t + Pow2(f.clusterBits) < 0x8000_0000_0000_0000
    requires o < Pow2(62) && o % 2 == 0 && (o == 0 || zeroes)
    requires WordAt(img, t + 8 * j, EncodeStandard(copied', o, zeroes))
    ensures FormatByte(DiskOf(img, f, inflate), backing, Address(f, i, j) + k) ==
            if zeroes || f.backing == 0 then 0 else backing(Address(f, i, j) + k)
  {
    hide Pow2, Reads, Open, Acceptable, FormatByte, FirstCluster, NormalizeOffset, EncodeStandard, TableEntry, WordAt,
         OriginOf, ReadMapping;
    OpensIff(img, f, inflate);
    var d, w := DiskOf(img, f, inflate), EncodeStandard(copied', o, zeroes);
    AddressIs(d, f, i, j);
    FormatOfOrigin(d, f, backing, i, j, k);
    FirstLevelWord(img, f, inflate, i, EncodeStandard(copied, t, false));
    DecodeStandard(f.clusterBits, copied, t, false, false);
    OriginAt(d, i, t, j, w);
    DecodeStandard(f.clusterBits, copied', o, zeroes, true);
    StandardBits(copied', o, zeroes);
  }

  lemma OriginAt(d: Disk, i: nat, t: nat, j: nat, w: nat)
    requires d.Valid() && i < d.header.l1Size && j < d.L2Size()
    requires NormalizeOffset(d.header.clusterBits, TableEntry(d.l1, i), false) == Standard(t)
    requires t + d.ClusterSize() <= |d.img| && t + d.ClusterSize() <= OFF_MAX && WordAt(d.img, t + 8 * j, w)
    ensures OriginOf(d, FirstCluster(d, i) + j) == DescriptorOrigin(d, w)
  {
    hide Pow2, NormalizeOffset, DescriptorOrigin, FromBigEndian, WordAt;
    DivMod(i, d.L2Size(), j);
    TableHoldsEntries(d);
    SubSlice(d.img, t, t + d.ClusterSize(), 8 * j, 8 * j + 8);
    WordOf(d.img, t + 8 * j, w);
  }

  /** The whole conversion, on a new file. */
  method ConvertImage(img: Bytes, f: Fields, inflate: Bytes -> Option<Bytes>) returns (e: Option<Errno>, raw: Bytes)
    requires Reads(img, f)
    ensures e.None? ==> Converts(img, f, inflate, raw)
    ensures !Acceptable(img, f) ==> e.Some?
  {
    hide Reads, Acceptable, IsVirtualDisk, FirstError, Open, FirstCluster;
    OpensIff(img, f, inflate);
    var file := new RawFile();
    e := Qcow2Convert.Qcow2Convert(img, inflate, file);
    raw := file.data;
  }
}
