/**
 The virtual disk as the format defines it: a cluster that is not allocated is read from the
 backing file, if the image names one. The conversion does not look at that name.
 */
module Qcow2Format {
  import opened Bytes
  import opened Qcow2
  import opened Qcow2Convert
  import opened Wrappers

  /** Where the bytes of a guest cluster come from. */
  datatype Origin = FromBacking | AllZero | FromImage(data: Bytes) | Broken(error: Errno)

  /** Bit 0 of a descriptor that is not compressed says that the cluster reads as zeroes. Without
      it, a cluster without host offset is not allocated. */
  function DescriptorOrigin(d: Disk, q: nat): Origin
    requires d.Valid()
  {
    if !Bit(q, 62) && Bit(q, 0) then AllZero
    else
      var m := NormalizeOffset(d.header.clusterBits, q, true);
      if m.Hole? then FromBacking
      else
        match ReadMapping(d, m)
        case Holds(data) => FromImage(data)
        case Unreadable(e) => Broken(e)
        case Zeroes => FromBacking
  }

  function OriginOf(d: Disk, c: nat): Origin
    requires d.Valid()
  {
    hide Pow2, TableOf, SlotOf, L2Table, DescriptorOrigin;
    var i, j := TableOf(c, d.L2Size()), SlotOf(c, d.L2Size());
    if i >= d.header.l1Size then FromBacking
    else
      match L2Table(d, i)
      case NoTable => FromBacking
      case BrokenTable(e) => Broken(e)
      case HasTable(t) => TableHoldsEntries(d); DescriptorOrigin(d, TableEntry(t, j))
  }

  /** What the conversion finds: it makes no distinction between holes and zero clusters. */
  lemma OriginOfCluster(d: Disk, c: nat)
    requires d.Valid()
    ensures Cluster(d, c) == match OriginOf(d, c)
                             case FromBacking => Zeroes
                             case AllZero => Zeroes
                             case FromImage(data) => Holds(data)
                             case Broken(e) => Unreadable(e)
  {
    hide Pow2, TableOf, SlotOf, L2Table, ReadAll;
    var i, j := TableOf(c, d.L2Size()), SlotOf(c, d.L2Size());
    if i < d.header.l1Size {
      TableHoldsEntries(d);
    }
  }

  /** The guest cluster of an address. */
  function ClusterAt(d: Disk, p: nat): nat
    requires d.Valid()
  {
    hide Pow2;
    p / d.ClusterSize()
  }

  function FormatByte(d: Disk, backing: nat -> Byte, p: nat): Byte
    requires d.Valid()
  {
    hide Pow2, OriginOf;
    OriginOfCluster(d, ClusterAt(d, p));
    match OriginOf(d, ClusterAt(d, p))
    case FromBacking => if d.header.backingFileOffset == 0 then 0 else backing(p)
    case AllZero => 0
    case FromImage(data) => data[p % d.ClusterSize()]
    case Broken(_) => 0
  }

  /** The file begins with the disk of the format, over a backing file with the given bytes. */
  ghost predicate HoldsDisk(d: Disk, backing: nat -> Byte, raw: Bytes)
    requires d.Valid()
  {
    |raw| >= d.header.size && forall p :: 0 <= p < d.header.size ==> raw[p] == FormatByte(d, backing, p)
  }

  /** Guest cluster c lies on the disk and is read from the backing file. */
  ghost predicate Inherits(d: Disk, c: nat)
    requires d.Valid()
  {
    d.Start(c) < d.header.size && OriginOf(d, c).FromBacking?
  }

  /** The two disks differ in the inherited clusters only. */
  lemma ByteDiffersOnlyIfInherited(d: Disk, backing: nat -> Byte, p: nat)
    requires d.Valid()
    ensures FormatByte(d, backing, p) ==
            if d.header.backingFileOffset != 0 && OriginOf(d, ClusterAt(d, p)).FromBacking? then backing(p)
            else GuestByte(d, p)
  {
    hide Disk.ClusterSize, OriginOf, Cluster;
    OriginOfCluster(d, ClusterAt(d, p));
  }

  lemma {:induction false} ExtentCoversSize(d: Disk, n: nat)
    requires d.Valid()
    ensures Extent(d, n) >= d.header.size
  {
    hide Pow2, Cluster;
    if n > 0 {
      ExtentCoversSize(d, n - 1);
    }
  }

  lemma StartOf(d: Disk, p: nat)
    requires d.Valid()
    ensures d.Start(ClusterAt(d, p)) <= p && ClusterAt(d, d.Start(p)) == p
  {
    hide Disk.ClusterSize;
    Quotient(p, d.ClusterSize());
  }

  lemma Quotient(p: nat, cs: nat)
    requires cs > 0
    ensures (p / cs) * cs <= p && (p * cs) / cs == p
  {
    InCluster(p, p / cs, cs);
    DivMod(p, cs, 0);
  }

  /** After a successful conversion the file is the disk of the format, whatever the backing file
      holds, exactly when the image names no backing file or no cluster of the disk inherits from
      it. */
  lemma HoldsDiskIff(d: Disk, raw: Bytes)
    requires d.Valid() && IsVirtualDisk(d, raw)
    ensures (forall backing: nat -> Byte :: HoldsDisk(d, backing, raw)) <==>
            d.header.backingFileOffset == 0 || forall c: nat :: !Inherits(d, c)
  {
    hide Pow2, OriginOf, GuestByte, FirstCluster, FormatByte, Disk.Start;
    ExtentCoversSize(d, FirstCluster(d, d.header.l1Size));
    if d.header.backingFileOffset == 0 || forall c: nat :: !Inherits(d, c) {
      forall backing: nat -> Byte
        ensures HoldsDisk(d, backing, raw)
      {
        NothingInherited(d, backing, raw);
      }
    } else {
      var c: nat :| Inherits(d, c);
      InheritedIsLost(d, raw, c);
    }
  }

  lemma NothingInherited(d: Disk, backing: nat -> Byte, raw: Bytes)
    requires d.Valid() && IsVirtualDisk(d, raw) && |raw| >= d.header.size
    requires d.header.backingFileOffset == 0 || forall c: nat :: !Inherits(d, c)
    ensures HoldsDisk(d, backing, raw)
  {
    hide Pow2, OriginOf, GuestByte, FirstCluster, FormatByte, Disk.Start, ClusterAt;
    forall p | 0 <= p < d.header.size
      ensures raw[p] == FormatByte(d, backing, p)
    {
      ByteDiffersOnlyIfInherited(d, backing, p);
      StartOf(d, p);
      assert d.header.backingFileOffset == 0 || !Inherits(d, ClusterAt(d, p));
    }
  }

  /** A backing file of other bytes than zero shows the difference. */
  lemma InheritedIsLost(d: Disk, raw: Bytes, c: nat)
    requires d.Valid() && IsVirtualDisk(d, raw) && |raw| >= d.header.size
    requires d.header.backingFileOffset != 0 && Inherits(d, c)
    ensures !HoldsDisk(d, _ => 1, raw)
  {
    hide Pow2, OriginOf, FirstCluster, FormatByte, Disk.Start, Cluster;
    var p := d.Start(c);
    StartOf(d, c);
    ByteDiffersOnlyIfInherited(d, _ => 1, p);
    OriginOfCluster(d, c);
    assert raw[p] == GuestByte(d, p) == 0;
  }

  /** The raw image is the disk of the format for every backing file exactly when the image names none
      or no cluster of the disk inherits from it. An image of another kind is its own raw image. */
  ghost predicate FaithfulIff(img: Bytes, inflate: Bytes -> Option<Bytes>, raw: Bytes) {
    if |img| < MAGIC_BYTES || !IsQcow2(img) then raw == img
    else
      && Open(img, inflate).Ok?
      && var d := Open(img, inflate).value;
         ((forall backing: nat -> Byte :: HoldsDisk(d, backing, raw)) <==>
          d.header.backingFileOffset == 0 || forall c: nat :: !Inherits(d, c))
  }

  lemma RawImageIsFaithfulIff(img: Bytes, inflate: Bytes -> Option<Bytes>, raw: Bytes)
    requires RawImage(img, inflate) == Ok(raw)
    ensures FaithfulIff(img, inflate, raw)
  {
    hide IsQcow2, Open, VirtualDisk, IsVirtualDisk, HoldsDisk, Inherits, ConvertError;
    if IsQcow2(img) {
      var d := Open(img, inflate).value;
      VirtualDiskIff(d, raw);
      HoldsDiskIff(d, raw);
    }
  }

  // ---- what success rules out --------------------------------------------------------

  lemma {:induction false} NoErrorBelow(d: Disk, n: nat, c: nat)
    requires d.Valid() && FirstError(d, n).None? && c < n
    ensures ClusterError(d, c).None?
  {
    hide ClusterError;
    if c < n - 1 {
      NoErrorBelow(d, n - 1, c);
    }
  }

  /** After a successful conversion every cluster could be read. */
  lemma NothingBroken(d: Disk, c: nat)
    requires d.Valid() && FirstError(d, FirstCluster(d, d.header.l1Size)).None?
    ensures !OriginOf(d, c).Broken?
  {
    hide Pow2, OriginOf, Cluster, FirstCluster, FirstError;
    OriginOfCluster(d, c);
    if c < FirstCluster(d, d.header.l1Size) {
      NoErrorBelow(d, FirstCluster(d, d.header.l1Size), c);
    } else {
      NothingBehindTables(d, c);
    }
  }

  /** The file has the size of the disk exactly when no cluster with data ends behind it. */
  lemma {:induction false} SizeIff(d: Disk, n: nat)
    requires d.Valid()
    ensures Extent(d, n) == d.header.size <==>
            forall c :: 0 <= c < n && Cluster(d, c).Holds? ==> d.Start(c + 1) <= d.header.size
  {
    hide Pow2, Cluster, Disk.Start;
    if n > 0 {
      SizeIff(d, n - 1);
      ExtentCoversSize(d, n - 1);
    }
  }

  // ---- an image whose backing file is lost -------------------------------------------

  /** Version 2, clusters of 512 bytes, a disk of one cluster that is not allocated, and a backing
      file whose name, "b", stands at the end. */
  function BackedByte(k: nat): Byte {
    match k
    case 0 => 0x51
    case 1 => 0x46
    case 2 => 0x49
    case 3 => 0xfb
    case 7 => 2
    case 15 => 112
    case 19 => 1
    case 23 => 9
    case 30 => 2
    case 39 => 1
    case 47 => 104
    case 112 => 98
    case _ => 0
  }

  function BackedImage(): (img: Bytes)
    ensures |img| == 113 && forall k :: 0 <= k < 113 ==> img[k] == BackedByte(k)
  {
    seq(113, k requires 0 <= k => BackedByte(k))
  }

  lemma {:induction false} ZeroWord(s: Bytes)
    requires forall k :: 0 <= k < |s| ==> s[k] == 0
    ensures FromBigEndian(s) == 0
  {
    if s != [] {
      ZeroWord(s[..|s| - 1]);
    }
  }

  /** A word whose bytes but the last two are zero. */
  lemma SmallWord(s: Bytes)
    requires |s| >= 2 && forall k :: 0 <= k < |s| - 2 ==> s[k] == 0
    ensures FromBigEndian(s) == 256 * (s[|s| - 2] as nat) + s[|s| - 1]
  {
    var t := s[..|s| - 1];
    ZeroWord(t[..|t| - 1]);
    assert FromBigEndian(t) == 256 * FromBigEndian(t[..|t| - 1]) + t[|t| - 1];
  }

  lemma MagicWord()
    ensures FromBigEndian([0x51, 0x46, 0x49, 0xfb]) == QCOW2_MAGIC
  {
    var s: Bytes := [0x51, 0x46, 0x49, 0xfb];
    SmallWord([0x51, 0x46]);
    assert s[..3] == [0x51, 0x46, 0x49] && s[..3][..2] == [0x51, 0x46];
    assert FromBigEndian(s[..3]) == 256 * FromBigEndian(s[..3][..2]) + 0x49;
  }

  /** A field of the header. */
  lemma Field(lo: nat, hi: nat)
    requires lo + 2 <= hi <= HEADER_BYTES && forall k :: lo <= k < hi - 2 ==> BackedByte(k) == 0
    ensures FromBigEndian(BackedImage()[..HEADER_BYTES][lo..hi]) ==
            256 * (BackedByte(hi - 2) as nat) + BackedByte(hi - 1)
  {
    hide BackedByte, FromBigEndian;
    SmallWord(BackedImage()[..HEADER_BYTES][lo..hi]);
  }

  lemma BackedHeader()
    ensures ParseHeader(BackedImage()[..HEADER_BYTES]) == Header(QCOW2_MAGIC, 2, 112, 9, 512, 0, 1, 104, 0, 72)
  {
    hide BackedImage, FromBigEndian;
    MagicWord();
    assert BackedImage()[..HEADER_BYTES][0..4] == [0x51, 0x46, 0x49, 0xfb];
    Field(4, 8);
    Field(8, 16);
    Field(20, 24);
    Field(24, 32);
    Field(32, 36);
    Field(36, 40);
    Field(40, 48);
    Field(72, 80);
  }

  lemma BackedOpens(inflate: Bytes -> Option<Bytes>)
    ensures Open(BackedImage(), inflate).Ok?
    ensures var d := Open(BackedImage(), inflate).value;
            && d.header.backingFileOffset == 112 && d.header.size == 512 && d.header.l1Size == 1
            && NormalizeOffset(d.header.clusterBits, TableEntry(d.l1, 0), false) == Hole
  {
    hide BackedImage, FromBigEndian, ParseHeader, Pow2;
    var img := BackedImage();
    BackedHeader();
    assert img[0..HEADER_BYTES] == img[..HEADER_BYTES];
    Pow2Of9();
    var l1 := img[104..112];
    ZeroWord(l1);
    assert l1[0..8] == l1;
    ZeroEntry();
  }

  lemma ZeroEntry()
    ensures NormalizeOffset(9, 0, false) == Hole
  {
    hide Pow2;
  }

  /** The tables of the image lead nowhere: the conversion leaves one cluster of zeroes. */
  lemma BackedConverts(inflate: Bytes -> Option<Bytes>)
    ensures ConvertError(BackedImage(), inflate).None?
    ensures Open(BackedImage(), inflate).Ok? && Inherits(Open(BackedImage(), inflate).value, 0)
  {
    hide Open, BackedImage, Converted, FirstError, FirstCluster, Pow2, NormalizeOffset, TableEntry;
    BackedOpens(inflate);
    var d := Open(BackedImage(), inflate).value;
    EmptyConverted(d, Zeros(512));
    SkippedTable(d, 0, d.L2Size(), Zeros(512));
    NextTable(d, 0);
    ConvertedNoError(d, Zeros(512), FirstCluster(d, 1));
    FirstSlot(d);
  }

  lemma FirstSlot(d: Disk)
    requires d.Valid()
    ensures TableOf(0, d.L2Size()) == 0 && SlotOf(0, d.L2Size()) == 0 && d.Start(0) == 0
  {
    hide Pow2;
  }

  /** The conversion succeeds, and the file is not the disk of the format. */
  method LostBacking(inflate: Bytes -> Option<Bytes>) returns (e: Option<Errno>, raw: Bytes)
    ensures e.None? && Open(BackedImage(), inflate).Ok?
    ensures !HoldsDisk(Open(BackedImage(), inflate).value, _ => 1, raw)
  {
    hide Open, BackedImage, ConvertError, IsVirtualDisk, Inherits;
    var file := new RawFile();
    e := Qcow2Convert.Qcow2Convert(BackedImage(), inflate, file);
    raw := file.data;
    BackedConverts(inflate);
    BackedOpens(inflate);
    var d := Open(BackedImage(), inflate).value;
    DiskCovered(d, raw);
    InheritedIsLost(d, raw, 0);
  }

  lemma DiskCovered(d: Disk, raw: Bytes)
    requires d.Valid() && IsVirtualDisk(d, raw)
    ensures |raw| >= d.header.size
  {
    ExtentCoversSize(d, FirstCluster(d, d.header.l1Size));
  }
}
