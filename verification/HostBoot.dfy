/** How a host finds out what it has to do with: the boot record and the master boot record decoded as in section
    "Boot Sector and BPB" of the Microsoft FAT32 File System Specification (libvdf/bootblock.c). */
module HostBoot {
  import opened Bytes
  import opened Volume
  import opened Names
  import opened FileTree
  import opened BootRecords
  import opened BootReader
  import opened HostReader
  import opened DriveModel
  import opened Serving
  import opened Recovery
  import opened Geometry

  // ---------------------------------------------------------------- decoding

  /** The number of clusters alone decides the type. */
  function TypeByCount(clusters: nat): FileSys {
    if clusters < 4085 then FAT12 else if clusters < 65525 then FAT16 else FAT32
  }

  /** The layout that follows from the fields of a boot record. */
  function FromFields(bps: nat, spc: nat, fat1: nat, cnt: nat, total: nat, fat: nat, mbr: nat,
                      vfat: bool): Option<Layout> {
    if bps == 0 || spc == 0 || total < fat1 + 2 * fat + CeilDiv(32 * cnt, bps) then None
    else
      var root := CeilDiv(32 * cnt, bps);
      var data := fat1 + 2 * fat + root;
      var clusters := (total - data) / spc;
      Some(Layout(TypeByCount(clusters), bps, spc, total, clusters, cnt, fat, fat1, fat1 + fat, fat1 + 2 * fat, root,
                  data, mbr, vfat))
  }

  /** Byte `at` of the device is the first of the boot record of a partition that begins at sector `mbr`. */
  function HostLayout(raw: seq<byte>, at: nat, mbr: nat, vfat: bool): Option<Layout> {
    var total := if WordAt(raw, at + 19) != 0 then WordAt(raw, at + 19) else DwordAt(raw, at + 32);
    var fat := if WordAt(raw, at + 22) != 0 then WordAt(raw, at + 22) else DwordAt(raw, at + 36);
    FromFields(WordAt(raw, at + 11), ByteAt(raw, at + 13) as nat, WordAt(raw, at + 14), WordAt(raw, at + 17), total,
               fat, mbr, vfat)
  }

  /** What a host takes for the layout at best: on FAT32 the root has no fixed number of slots. */
  function AsRecorded(l: Layout): Layout {
    l.(rootDirCnt := RootCount(l))
  }

  /** A host computes the length of the root region from the number of its slots. */
  predicate RootFits(l: Layout)
    requires l.bps > 0
  {
    l.rootSectors == CeilDiv(32 * RootCount(l), l.bps)
  }

  /** The other fields fit theirs, and the number of clusters tells the type; see `PlanDescribable`. */
  predicate Describable(l: Layout) {
    && LayoutOk(l) && !l.fs.FAT12? && TypeByCount(l.clusters) == l.fs
    && l.fat1Start < 0x1_0000 && l.mbrSectors < TWO32
    && (l.fs.FAT16? ==> l.fatSectors < 0x1_0000 && 0 <= l.rootDirCnt < 0x1_0000)
  }

  lemma FieldsGiveLayout(l: Layout, spc: nat)
    requires Describable(l)
    ensures
      var found := FromFields(l.bps, spc, l.fat1Start, RootCount(l), l.sectors, l.fatSectors, l.mbrSectors, l.vfat);
      found == Some(AsRecorded(l)) <==> spc == l.spc && RootFits(l)
  {
    if spc == l.spc && RootFits(l) {
      MulSplit(l.clusters, 1, l.spc);
      QuotientUnique(l.sectors - l.dataStart, l.spc, l.clusters);
    }
  }

  // ---------------------------------------------------------------- the bytes of a record

  /** The record `rec` lies at byte `at`. */
  ghost predicate RecordAt(raw: seq<byte>, at: nat, rec: seq<Cell>) {
    |rec| == 512 && forall r {:trigger rec[r]} :: 0 <= r < 512 ==> Shows(rec[r], ByteAt(raw, at + r))
  }

  lemma WordField(raw: seq<byte>, at: nat, rec: seq<Cell>, p: nat, w: nat)
    requires RecordAt(raw, at, rec) && p + 2 <= 512 && IsField(rec, p, 2, w) && w < 0x1_0000
    ensures WordAt(raw, at + p) == w
  {
    assert Shows(rec[p], ByteAt(raw, at + p)) && Shows(rec[p + 1], ByteAt(raw, at + (p + 1)));
    Le16RoundTrip(w as u16);
  }

  lemma DwordField(raw: seq<byte>, at: nat, rec: seq<Cell>, p: nat, w: u32)
    requires RecordAt(raw, at, rec) && p + 4 <= 512 && IsField(rec, p, 4, w)
    ensures DwordAt(raw, at + p) == w
  {
    assert Shows(rec[p], ByteAt(raw, at + p)) && Shows(rec[p + 1], ByteAt(raw, at + (p + 1)));
    assert Shows(rec[p + 2], ByteAt(raw, at + (p + 2))) && Shows(rec[p + 3], ByteAt(raw, at + (p + 3)));
    Le32RoundTrip(w);
  }

  /** The fields of the record as far as they say something about the layout. */
  ghost predicate LayoutFields(rec: seq<Cell>, l: Layout, count: nat, small: nat, fat: nat) {
    && IsField(rec, 11, 2, l.bps) && IsField(rec, 13, 1, l.spc) && IsField(rec, 14, 2, l.fat1Start)
    && IsField(rec, 17, 2, count) && IsField(rec, 19, 2, small) && IsField(rec, 22, 2, fat)
  }

  lemma CommonFields(rec: seq<Cell>, l: Layout)
    requires |rec| == 512 && forall r {:trigger rec[r]} :: 0 <= r < 32 ==> rec[r] == Is(CommonByte(l, r))
    ensures LayoutFields(rec, l, RootCount(l), SmallCount(l), if l.fs.FAT32? then 0 else l.fatSectors)
  {
  }

  lemma LargeFields(rec: seq<Cell>, l: Layout, serial: u32, title: Label, root: nat)
    requires rec == BootRecord(l, serial, title, root) && !l.fs.FAT12?
    ensures l.fs.FAT32? ==> IsField(rec, 32, 4, l.sectors) && IsField(rec, 36, 4, l.fatSectors)
    ensures l.fs.FAT32? ==> IsField(rec, 44, 4, root)
    ensures SmallCount(l) == 0 ==> IsField(rec, 32, 4, l.sectors)
  {
  }

  /** The fields decoded, those of 32 bits where the one of 16 bits is 0. */
  lemma FieldsDecoded(raw: seq<byte>, at: nat, rec: seq<Cell>, l: Layout, count: nat, small: nat, fat: nat)
    requires RecordAt(raw, at, rec) && LayoutFields(rec, l, count, small, fat)
    requires l.bps < 0x1_0000 && l.fat1Start < 0x1_0000 && count < 0x1_0000 && small < 0x1_0000 && fat < 0x1_0000
    ensures WordAt(raw, at + 11) == l.bps && ByteAt(raw, at + 13) as int == l.spc % 256
    ensures WordAt(raw, at + 14) == l.fat1Start && WordAt(raw, at + 17) == count
    ensures WordAt(raw, at + 19) == small && WordAt(raw, at + 22) == fat
  {
    WordField(raw, at, rec, 11, l.bps);
    assert Shows(rec[13], ByteAt(raw, at + 13));
    WordField(raw, at, rec, 14, l.fat1Start);
    WordField(raw, at, rec, 17, count);
    WordField(raw, at, rec, 19, small);
    WordField(raw, at, rec, 22, fat);
  }

  lemma RecordDecoded(raw: seq<byte>, at: nat, l: Layout, rec: seq<Cell>, serial: u32, title: Label, root: u32)
    requires Describable(l) && RecordAt(raw, at, rec) && rec == BootRecord(l, serial, title, root)
    ensures WordAt(raw, at + 11) == l.bps && ByteAt(raw, at + 13) as int == l.spc % 256
    ensures WordAt(raw, at + 14) == l.fat1Start && WordAt(raw, at + 17) == RootCount(l)
    ensures l.sectors == if WordAt(raw, at + 19) != 0 then WordAt(raw, at + 19) else DwordAt(raw, at + 32)
    ensures l.fatSectors == if WordAt(raw, at + 22) != 0 then WordAt(raw, at + 22) else DwordAt(raw, at + 36)
    ensures l.fs.FAT32? ==> DwordAt(raw, at + 44) == root
  {
    assert SectorSize(l.bps);
    CommonFields(rec, l);
    LargeFields(rec, l, serial, title, root);
    FieldsDecoded(raw, at, rec, l, RootCount(l), SmallCount(l), if l.fs.FAT32? then 0 else l.fatSectors);
    if SmallCount(l) == 0 {
      DwordField(raw, at, rec, 32, l.sectors);
    }
    if l.fs.FAT32? {
      DwordField(raw, at, rec, 36, l.fatSectors);
      DwordField(raw, at, rec, 44, root);
    }
  }

  /** A host gets the layout from the boot record if and only if the cluster size fits its byte and the root region
      has not been rounded up. */
  lemma RecordDescribes(raw: seq<byte>, at: nat, l: Layout, serial: u32, title: Label, root: u32)
    requires Describable(l) && RecordAt(raw, at, BootRecord(l, serial, title, root))
    ensures HostLayout(raw, at, l.mbrSectors, l.vfat) == Some(AsRecorded(l)) <==> l.spc < 256 && RootFits(l)
  {
    RecordDecoded(raw, at, l, BootRecord(l, serial, title, root), serial, title, root);
    FieldsGiveLayout(l, l.spc % 256);
  }

  // ---------------------------------------------------------------- on a drive

  lemma BootRecordShown(v: Volume, raw: seq<byte>, r: nat)
    requires Dump(v, raw) && r < 512 && |v.boot| == 512
    ensures Shows(v.boot[r], ByteAt(raw, SectorOffset(v.l, 0) + r))
  {
    assert SectorSize(v.l.bps);
    MulMono(1, v.l.sectors, v.l.bps);
    MulMono(1, v.l.fat1Start, v.l.bps);
    PartShown(v, raw, 0, r);
    BootAtSector(v, 0, r);
  }

  lemma BootRecordFound(v: Volume, raw: seq<byte>)
    requires Dump(v, raw) && |v.boot| == 512
    ensures RecordAt(raw, SectorOffset(v.l, 0), v.boot)
  {
    forall r {:trigger v.boot[r]} | 0 <= r < 512
      ensures Shows(v.boot[r], ByteAt(raw, SectorOffset(v.l, 0) + r))
    {
      BootRecordShown(v, raw, r);
    }
  }

  lemma MbrFound(v: Volume, raw: seq<byte>)
    requires Dump(v, raw) && |v.mbr| == 512 && v.l.mbrSectors > 0
    ensures RecordAt(raw, 0, v.mbr)
  {
    assert SectorSize(v.l.bps);
    MulMono(1, v.l.mbrSectors, v.l.bps);
    MulMono(v.l.mbrSectors, TotalSectors(v.l), v.l.bps);
    forall r {:trigger v.mbr[r]} | 0 <= r < 512
      ensures Shows(v.mbr[r], ByteAt(raw, 0 + r))
    {
      assert DumpByte(v, raw, r);
    }
  }

  lemma PartitionFields(rec: seq<Cell>, l: Layout, serial: u32)
    requires rec == MbrRecord(l, serial)
    ensures IsField(rec, 454, 4, l.mbrSectors) && IsField(rec, 458, 4, l.sectors) && IsField(rec, 510, 2, 0xaa55)
    ensures rec[450] == Is(PartitionType(l.fs))
  {
  }

  /** The master boot record names the first sector of the drive and their number, and ends as it has to. */
  lemma PartitionDecoded(raw: seq<byte>, l: Layout, serial: u32)
    requires RecordAt(raw, 0, MbrRecord(l, serial)) && l.mbrSectors < TWO32 && l.sectors < TWO32
    ensures DwordAt(raw, 454) == l.mbrSectors && DwordAt(raw, 458) == l.sectors
    ensures ByteAt(raw, 450) == PartitionType(l.fs) && WordAt(raw, 510) == 0xaa55
  {
    var rec := MbrRecord(l, serial);
    PartitionFields(rec, l, serial);
    DwordField(raw, 0, rec, 454, l.mbrSectors);
    DwordField(raw, 0, rec, 458, l.sectors);
    WordField(raw, 0, rec, 510, 0xaa55);
    assert Shows(rec[450], ByteAt(raw, 0 + 450));
  }

  /** Where a host looks for the boot record of a device with sectors of `bps` bytes. */
  function PartitionStart(raw: seq<byte>, hasMbr: bool): nat {
    if hasMbr then DwordAt(raw, 454) else 0
  }

  function HostFinds(raw: seq<byte>, hasMbr: bool, bps: nat, vfat: bool): Option<Layout> {
    var mbr := PartitionStart(raw, hasMbr);
    HostLayout(raw, mbr * bps, mbr, vfat)
  }

  lemma VolumeDescribesItself(v: Volume, raw: seq<byte>, l: Layout, serial: u32, title: Label, root: u32)
    requires Dump(v, raw) && v.l == l && Describable(l)
    requires v.boot == BootRecord(l, serial, title, root) && v.mbr == MbrRecord(l, serial)
    ensures HostFinds(raw, l.mbrSectors > 0, l.bps, l.vfat) == Some(AsRecorded(l)) <==> l.spc < 256 && RootFits(l)
    ensures l.fs.FAT32? ==> DwordAt(raw, SectorOffset(l, 0) + 44) == root
  {
    BootRecordFound(v, raw);
    if l.mbrSectors > 0 {
      MbrFound(v, raw);
      PartitionDecoded(raw, l, serial);
    }
    RecordDecoded(raw, SectorOffset(l, 0), l, v.boot, serial, title, root);
    RecordDescribes(raw, SectorOffset(l, 0), l, serial, title, root);
  }

  /** All that a host has to know of a clean drive is in the bytes of the drive if and only if the cluster size fits
      its byte and the root region has not been rounded up; on FAT32 also where the root begins. */
  lemma DriveDescribesItself(drv: Drive, raw: seq<byte>)
    requires Servable(drv) && Dump(VolumeOf(drv), raw) && Describable(drv.layout)
    ensures
      var l := drv.layout;
      HostFinds(raw, l.mbrSectors > 0, l.bps, l.vfat) == Some(AsRecorded(l)) <==> l.spc < 256 && RootFits(l)
    ensures drv.layout.fs.FAT32? ==> DwordAt(raw, SectorOffset(drv.layout, 0) + 44) == drv.exts[ROOT].start == 2
  {
    RootFirst(ServedOf(drv), drv.repr, drv.all, drv.nonemptyCnt);
    VolumeDescribesItself(VolumeOf(drv), raw, drv.layout, drv.serial, drv.title, drv.exts[ROOT].start);
  }

  // ---------------------------------------------------------------- planned layouts

  lemma SmallEstimate(estimate: nat, clusters: nat, fat: nat, bps: nat, spc: nat, span: nat)
    requires SectorSize(bps) && 0 < spc <= 512 && clusters <= 65524
    requires estimate * spc <= span < (clusters + 1) * spc + 2 * fat
    requires fat * bps <= 2 * estimate + bps + spc * bps
    ensures fat < 0x1_0000
  {
    MulMono(clusters + 1, 65525, spc);
    MulMono(1, spc, estimate);
    if estimate > 67000 {
      MulMono(67001, estimate, spc);
    }
  }

  lemma TableBytes(fs: FileSys, estimate: nat, bps: nat, spc: nat, align: bool)
    requires fs.FAT16? && bps > 0 && spc > 0
    ensures FatLength(fs, estimate, bps, spc, align) * bps <= 2 * estimate + bps + spc * bps
  {
    var n := CeilDiv(2 * estimate, bps);
    CeilDivBounds(2 * estimate, bps);
    AlignedPositive(n, spc);
    MulMono(0, spc, bps);
    MulMono(FatLength(fs, estimate, bps, spc, align), n + spc, bps);
    MulSplit(n, spc, bps);
  }

  lemma SmallTable(fs: FileSys, sectors: nat, before: nat, bps: nat, spc: nat, align: bool, fat: nat, clusters: nat)
    requires fs.FAT16? && SectorSize(bps) && PowerOfTwo(spc) && before + fat * 2 <= sectors
    requires fat == FatLength(fs, Quotient(sectors - before, spc), bps, spc, align)
    requires clusters == Quotient(sectors - (before + fat * 2), spc) <= 65524
    ensures fat < 0x1_0000
  {
    var estimate := Quotient(sectors - before, spc);
    DivMul(sectors - before, spc);
    DivMul(sectors - (before + fat * 2), spc);
    TableBytes(fs, estimate, bps, spc, align);
    SmallEstimate(estimate, clusters, fat, bps, spc, sectors - before);
  }

  lemma AlignedExactly(n: nat, spc: nat)
    requires spc > 0
    ensures Aligned(n, spc, true) == n <==> MultipleBelow(n, spc) == n
  {
    QuotientBounds(n + spc - 1, spc);
    QuotientBounds(n, spc);
    var q, r := Quotient(n + spc - 1, spc), Quotient(n, spc);
    MulSplit(r, 1, spc);
    MulSplit(q, 1, spc);
    if q < r {
      MulMono(q + 1, r, spc);
    } else if r < q {
      MulMono(r + 1, q, spc);
    }
  }

  /** Every accepted FAT16 or FAT32 plan can be described; its root region is the one that a host computes if and only
      if structures are not aligned or the region is a whole number of clusters long as it is. */
  lemma PlanDescribable(fs: FileSys, sectors: u32, bps: nat, spc: nat, rootCnt: nat, o: Options)
    requires SectorSize(bps) && ClusterChoice(fs, spc) && rootCnt <= 65535 && !fs.FAT12?
    requires Ideal(fs, sectors, bps, spc, rootCnt, o).Some?
    ensures
      var l, n := Ideal(fs, sectors, bps, spc, rootCnt, o).value, CeilDiv(32 * rootCnt, bps);
      && Describable(l)
      && (RootFits(l) <==> fs.FAT32? || !o.align || MultipleBelow(n, spc) == n)
  {
    var l := Ideal(fs, sectors, bps, spc, rootCnt, o).value;
    PlanWellFormed(fs, sectors, bps, spc, rootCnt, o);
    PlanParts(fs, sectors, bps, spc, rootCnt, o);
    FatStartBound(fs, spc, o.align);
    AlignedExactly(CeilDiv(32 * rootCnt, bps), spc);
    if fs.FAT16? {
      SmallTable(fs, sectors, l.fat1Start + l.rootSectors, bps, spc, o.align, l.fatSectors, l.clusters);
    }
  }

  /** Such an input: an aligned FAT16 drive of 10,044 sectors with clusters of two and 16 root slots, which take one
      sector. The code accepts it, and a host looks for cluster 2 one sector before it. */
  lemma AlignedRootExample(o: Options)
    requires o.align
    ensures
      var plan := Ideal(FAT16, 10044, 512, 2, 16, o);
      && plan.Some? && plan.value.dataStart == 44 && plan.value.clusters == 5000
      && CeilDiv(32 * RootCount(plan.value), 512) == 1 && !RootFits(plan.value)
  {
    var n := CeilDiv(10040, 512);
    CeilDivIsDivision(10040, 512);
    QuotientIsDivision(10040, 2);
    QuotientIsDivision(10000, 2);
    QuotientBounds(n + 1, 2);
    QuotientIsDivision(n + 1, 2);
    QuotientBounds(1 + 1, 2);
    QuotientIsDivision(1 + 1, 2);
    assert FatLength(FAT16, 5020, 512, 2, true) == 20;
    assert RootLength(FAT16, 16, 512, 2, true) == 2;
  }

  // ---------------------------------------------------------------- what the records get wrong

  /** The last two bytes of the boot record are written in the wrong order. */
  lemma SignatureReversed(raw: seq<byte>, at: nat, l: Layout, serial: u32, title: Label, root: nat)
    requires RecordAt(raw, at, BootRecord(l, serial, title, root))
    ensures WordAt(raw, at + 510) == 0x55aa != 0xaa55
  {
    WordField(raw, at, BootRecord(l, serial, title, root), 510, 0x55aa);
  }

  /** The eight bytes of the type, of which the first comes last: the label field runs over it by one byte unless one
      of the first twelve characters of the label is a space. So the type is shown exactly if the drive has no label,
      the label has such a space, or its twelfth character happens to be the first of the type. */
  lemma TypeTextShown(raw: seq<byte>, at: nat, l: Layout, serial: u32, title: Label, root: nat)
    requires RecordAt(raw, at, BootRecord(l, serial, title, root)) && !l.fs.FAT12?
    ensures forall i :: 0 < i < 8 ==> ByteAt(raw, at + (TailStart(l.fs) + 18 + i)) == FsName(l.fs)[i]
    ensures ByteAt(raw, at + (TailStart(l.fs) + 18)) == FsName(l.fs)[0] <==>
            || title.Unlabelled?
            || SPACE in title.text[..Min(|title.text|, 12)]
            || (|title.text| >= 12 && title.text[11] in {70, 102})
  {
    TypeByteShown(raw, at, l, serial, title, root, 0);
    forall i | 0 < i < 8
      ensures ByteAt(raw, at + (TailStart(l.fs) + 18 + i)) == FsName(l.fs)[i]
    {
      TypeByteShown(raw, at, l, serial, title, root, i);
    }
    if title.Labelled? {
      LastLabelByte(title.text);
    }
  }

  lemma TypeByteShown(raw: seq<byte>, at: nat, l: Layout, serial: u32, title: Label, root: nat, i: nat)
    requires RecordAt(raw, at, BootRecord(l, serial, title, root)) && !l.fs.FAT12? && i < 8
    ensures Shows(LabelCell(l.fs, title, 11 + i), ByteAt(raw, at + (TailStart(l.fs) + 18 + i)))
  {
    var rec, r := BootRecord(l, serial, title, root), TailStart(l.fs) + 18 + i;
    assert rec[r] == TailCell(l.fs, serial, title, 18 + i);
    assert Shows(rec[r], ByteAt(raw, at + r));
  }

  /** The twelfth byte that the label loop writes. */
  lemma LastLabelByte(text: Name)
    ensures |LabelBytes(text)| == 12 <==> SPACE !in text[..Min(|text|, 12)]
    ensures |LabelBytes(text)| == 12 ==>
              (LabelBytes(text)[11] == 70 <==> |text| >= 12 && text[11] in {70, 102})
  {
    var start := text[..Min(|text|, 12)];
    SpacesDropped(start);
    if |text| >= 12 {
      SpacesDropped(start[..11]);
      assert Stuffed(start) == Stuffed(start[..11]) + StuffDosname(text[11]);
      assert SPACE !in start ==> SPACE !in start[..11];
    }
  }

  lemma {:induction false} SpacesDropped(s: Name)
    ensures |Stuffed(s)| == |s| <==> SPACE !in s
  {
    if s != [] {
      var t := s[..|s| - 1];
      SpacesDropped(t);
      assert s == t + [s[|s| - 1]];
    }
  }
}
