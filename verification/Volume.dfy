/** The abstract disk: a layout, the extents of the data area and, from them, every byte of the image. */
module Volume {
  import opened Bytes

  datatype FileSys = FAT12 | FAT16 | FAT32

  /** The fields of `vdf_drive` that are fixed when the drive is created. */
  datatype Layout = Layout(
    fs: FileSys,
    bps: nat,
    spc: nat,
    sectors: nat,
    clusters: nat,
    rootDirCnt: int,
    fatSectors: nat,
    fat1Start: nat,
    fat2Start: nat,
    rootStart: nat,
    rootSectors: nat,
    dataStart: nat,
    mbrSectors: nat,
    vfat: bool)

  predicate SectorSize(n: nat) {
    n == 512 || n == 1024 || n == 2048 || n == 4096
  }

  /** The sector size of `l` is one of these; a proof that needs to know which ones names `SectorSize(l.bps)`. */
  predicate SectorSized(l: Layout) {
    0 < l.bps && forall n: nat {:trigger SectorSize(n)} :: n == l.bps ==> SectorSize(n)
  }

  function MaxClusters(fs: FileSys): nat {
    match fs
    case FAT12 => 4084
    case FAT16 => 65524
    case FAT32 => 0xfffffef - 2
  }

  /** The regions follow each other inside the drive. */
  predicate Regions(l: Layout) {
    && SectorSized(l)
    && 0 < l.fat1Start < l.fat2Start
    && l.fat2Start == l.fat1Start + l.fatSectors
    && l.rootStart == l.fat2Start + l.fatSectors
    && l.dataStart == l.rootStart + l.rootSectors
    && l.dataStart <= l.sectors < TWO32
    && (l.fs.FAT32? ==> l.rootSectors == 0)
  }

  /** In addition, the cluster count is the largest that fits and within the limits of the file system. */
  predicate LayoutOk(l: Layout) {
    && Regions(l)
    && 0 < l.spc <= 512
    && l.dataStart + l.clusters * l.spc <= l.sectors < l.dataStart + (l.clusters + 1) * l.spc
    && l.clusters <= MaxClusters(l.fs)
    && l.fatSectors * l.bps < 0x8000_0000
  }

  function BytesPerCluster(l: Layout): nat {
    l.bps * l.spc
  }

  lemma ClusterBytes(l: Layout)
    requires LayoutOk(l)
    ensures 0 < BytesPerCluster(l) <= 4096 * 512
  {
    assert SectorSize(l.bps);
  }

  // ---------------------------------------------------------------- directory slots

  /** One 32-byte directory slot. */
  datatype Slot =
    | LongSlot(seqNo: byte, chk: byte, units: seq<u16>)
    | ShortSlot(name: seq<byte>, attr: byte, tenth: byte, ctime: u16, cdate: Cell16, adate: u16,
                clusterHigh: u16, mtime: u16, mdate: u16, cluster: u16, size: u32)

  /** A 16-bit field that may be left unwritten. */
  datatype Cell16 = Unwritten | Word(value: u16)

  function WordCell(w: Cell16, t: nat): Cell {
    match w
    case Unwritten => Any
    case Word(v) => Is(LeByte(v as int, t))
  }

  function UnitCell(units: seq<u16>, i: nat, t: nat): Cell {
    if i < |units| then Is(LeByte(units[i] as int, t)) else Any
  }

  /** Byte `r` of a slot, following `struct dir_ent` and `struct dir_ent_vfat`. */
  function SlotCell(s: Slot, r: nat): Cell {
    match s
    case LongSlot(seqNo, chk, units) =>
      if r == 0 then Is(seqNo)
      else if r < 11 then UnitCell(units, (r - 1) / 2, (r - 1) % 2)
      else if r == 11 then Is(0x0f)
      else if r == 13 then Is(chk)
      else if 14 <= r < 26 then UnitCell(units, 5 + (r - 14) / 2, (r - 14) % 2)
      else if 28 <= r < 32 then UnitCell(units, 11 + (r - 28) / 2, (r - 28) % 2)
      else Is(0)
    case ShortSlot(name, attr, tenth, ctime, cdate, adate, hi, mtime, mdate, lo, size) =>
      if r < 11 then (if r < |name| then Is(name[r]) else Any)
      else if r == 11 then Is(attr)
      else if r == 12 then Is(0)
      else if r == 13 then Is(tenth)
      else if r < 16 then Is(LeByte(ctime as int, r - 14))
      else if r < 18 then WordCell(cdate, r - 16)
      else if r < 20 then Is(LeByte(adate as int, r - 18))
      else if r < 22 then Is(LeByte(hi as int, r - 20))
      else if r < 24 then Is(LeByte(mtime as int, r - 22))
      else if r < 26 then Is(LeByte(mdate as int, r - 24))
      else if r < 28 then Is(LeByte(lo as int, r - 26))
      else Is(LeByte(size, r - 28))
  }

  /** The 32 bytes of a slot as they appear on disk. */
  type Block = seq<Cell>

  function Encoded(s: Slot): (b: Block)
    ensures |b| == 32
  {
    seq(32, r requires 0 <= r => SlotCell(s, r))
  }

  /** Byte `j` of a directory: its slots one after the other, then zeros. */
  function DirCell(blocks: seq<Block>, j: nat): Cell {
    if j / 32 < |blocks| && j % 32 < |blocks[j / 32]| then blocks[j / 32][j % 32] else Is(0)
  }

  // ---------------------------------------------------------------- extents

  /** What a run of clusters holds. */
  datatype Payload = FileData(size: nat, content: seq<byte>) | DirData(blocks: seq<Block>)

  function PayloadCell(p: Payload, j: nat): Cell {
    match p
    case FileData(size, content) => Is(if j < size && j < |content| then content[j] else 0)
    case DirData(blocks) => DirCell(blocks, j)
  }

  /** A file or directory placed in clusters [start, end) and sectors [startsect, endsect). */
  datatype Extent = Extent(start: nat, end: nat, startsect: nat, endsect: nat, payload: Payload)

  ghost predicate Chained(xs: seq<Extent>, i: nat)
    requires i + 1 < |xs|
  {
    xs[i].end == xs[i + 1].start && xs[i].endsect == xs[i + 1].startsect
  }

  ghost predicate ExtentOk(l: Layout, x: Extent) {
    && 2 <= x.start < x.end
    && x.startsect == l.dataStart + (x.start - 2) * l.spc
    && x.endsect == l.dataStart + (x.end - 2) * l.spc
  }

  /** The extents tile clusters [2, ClusterEnd) and sectors from dataStart on, without gap or overlap. */
  ghost predicate Tiled(l: Layout, xs: seq<Extent>) {
    && (forall i :: 0 <= i < |xs| ==> ExtentOk(l, xs[i]))
    && (|xs| > 0 ==> xs[0].start == 2)
    && (forall i {:trigger Chained(xs, i)} :: 0 <= i && i + 1 < |xs| ==> Chained(xs, i))
  }

  function ClusterEnd(xs: seq<Extent>): nat {
    if |xs| == 0 then 2 else xs[|xs| - 1].end
  }

  function SectorEnd(l: Layout, xs: seq<Extent>): nat {
    if |xs| == 0 then l.dataStart else xs[|xs| - 1].endsect
  }

  lemma {:induction false} TiledOrder(l: Layout, xs: seq<Extent>, i: nat, j: nat)
    requires Tiled(l, xs) && i < j < |xs|
    ensures xs[i].end <= xs[j].start && xs[i].endsect <= xs[j].startsect
    decreases j
  {
    assert Chained(xs, j - 1);
    if i < j - 1 {
      TiledOrder(l, xs, i, j - 1);
      MulMono(xs[j - 1].start - 2, xs[j - 1].end - 2, l.spc);
    }
  }

  lemma TiledSectors(l: Layout, x: Extent)
    requires ExtentOk(l, x) && l.spc > 0
    ensures x.startsect < x.endsect
    ensures x.endsect - x.startsect == (x.end - x.start) * l.spc
  {
    MulSplit(x.start - 2, x.end - x.start, l.spc);
    MulMono(1, x.end - x.start, l.spc);
  }

  // ---------------------------------------------------------------- the file allocation table

  /** Bytes per entry, for the two widths that divide a sector. */
  function EntryWidth(fs: FileSys): nat {
    if fs.FAT32? then 4 else 2
  }

  /** Where entry `n` begins in the table. */
  function EntryPos(fs: FileSys, n: nat): nat {
    if fs.FAT32? then 4 * n else 2 * n
  }

  /** The entry that byte `j` of the table belongs to, and which of its bytes it is. */
  function EntryOf(fs: FileSys, j: nat): nat {
    if fs.FAT32? then j / 4 else j / 2
  }

  function ByteOf(fs: FileSys, j: nat): nat {
    if fs.FAT32? then j % 4 else j % 2
  }

  lemma EntryIndex(fs: FileSys, n: nat, t: nat)
    requires t < EntryWidth(fs)
    ensures EntryOf(fs, EntryPos(fs, n) + t) == n && ByteOf(fs, EntryPos(fs, n) + t) == t
  {
  }

  lemma ClusterEndAtLeastTwo(l: Layout, xs: seq<Extent>)
    requires Tiled(l, xs)
    ensures ClusterEnd(xs) >= 2
  {
    if |xs| > 0 {
      assert ExtentOk(l, xs[|xs| - 1]);
    }
  }

  function MediaMark(fs: FileSys): u32 {
    if fs.FAT32? then 0x0fff_fff8 else 0xfff8
  }

  function EndMark(fs: FileSys): u32 {
    if fs.FAT32? then 0x0fff_ffff else 0xffff
  }

  /** `n` is the last cluster of some extent. */
  ghost predicate IsLast(xs: seq<Extent>, n: nat) {
    exists i :: 0 <= i < |xs| && xs[i].end - 1 == n
  }

  /** Entry `n` of the table: two reserved entries, a link inside a file, an end mark, then free entries. */
  ghost function FatEntry(fs: FileSys, xs: seq<Extent>, n: nat): nat {
    if n == 0 then MediaMark(fs)
    else if n == 1 then EndMark(fs)
    else if n >= ClusterEnd(xs) then 0
    else if IsLast(xs, n) then EndMark(fs)
    else n + 1
  }

  ghost function FatByte(fs: FileSys, xs: seq<Extent>, j: nat): byte
    requires !fs.FAT12?
  {
    LeByte(FatEntry(fs, xs, EntryOf(fs, j)), ByteOf(fs, j))
  }

  lemma FatEntryInside(l: Layout, xs: seq<Extent>, i: nat, n: nat)
    requires Tiled(l, xs) && i < |xs| && xs[i].start <= n < xs[i].end
    ensures n < ClusterEnd(xs)
    ensures FatEntry(l.fs, xs, n) == if n == xs[i].end - 1 then EndMark(l.fs) else n + 1
  {
    assert ExtentOk(l, xs[i]);
    if i < |xs| - 1 {
      TiledOrder(l, xs, i, |xs| - 1);
      assert ExtentOk(l, xs[|xs| - 1]);
    }
    forall j | 0 <= j < |xs| && j != i
      ensures xs[j].end - 1 != n
    {
      assert ExtentOk(l, xs[j]);
      if j < i {
        TiledOrder(l, xs, j, i);
      } else {
        TiledOrder(l, xs, i, j);
      }
    }
  }

  // ---------------------------------------------------------------- the data area

  function Padded(p: Payload, n: nat): (s: seq<Cell>)
    ensures |s| == n
  {
    seq(n, j requires 0 <= j => PayloadCell(p, j))
  }

  function ExtentBytes(bps: nat, x: Extent): nat {
    if x.startsect <= x.endsect then (x.endsect - x.startsect) * bps else 0
  }

  /** All payloads in order, each padded with zeros to whole clusters. */
  function DataArea(bps: nat, xs: seq<Extent>): seq<Cell> {
    if xs == [] then []
    else DataArea(bps, xs[..|xs| - 1]) + Padded(xs[|xs| - 1].payload, ExtentBytes(bps, xs[|xs| - 1]))
  }

  function CellAt(s: seq<Cell>, j: int): Cell {
    if 0 <= j < |s| then s[j] else Is(0)
  }

  lemma TiledPrefix(l: Layout, xs: seq<Extent>)
    requires Tiled(l, xs) && xs != []
    ensures Tiled(l, xs[..|xs| - 1])
    ensures SectorEnd(l, xs[..|xs| - 1]) == xs[|xs| - 1].startsect
    ensures ClusterEnd(xs[..|xs| - 1]) == xs[|xs| - 1].start
  {
    var ys := xs[..|xs| - 1];
    forall i {:trigger Chained(ys, i)} | 0 <= i && i + 1 < |ys|
      ensures Chained(ys, i)
    {
      assert Chained(xs, i);
    }
    if ys != [] {
      assert Chained(xs, |xs| - 2);
    } else {
      assert ExtentOk(l, xs[0]);
    }
  }

  lemma {:induction false} DataAreaSize(l: Layout, xs: seq<Extent>)
    requires Tiled(l, xs) && l.spc > 0
    ensures SectorEnd(l, xs) >= l.dataStart
    ensures |DataArea(l.bps, xs)| == (SectorEnd(l, xs) - l.dataStart) * l.bps
  {
    if xs != [] {
      var x := xs[|xs| - 1];
      assert ExtentOk(l, x);
      TiledPrefix(l, xs);
      DataAreaSize(l, xs[..|xs| - 1]);
      TiledSectors(l, x);
      MulSplit(x.startsect - l.dataStart, x.endsect - x.startsect, l.bps);
    }
  }

  /** Inside extent `i` the data area shows that extent's payload. */
  lemma {:induction false} DataAreaInside(l: Layout, xs: seq<Extent>, i: nat, j: nat)
    requires Tiled(l, xs) && l.spc > 0 && i < |xs|
    requires j < (xs[i].endsect - xs[i].startsect) * l.bps
    ensures xs[i].startsect >= l.dataStart
    ensures CellAt(DataArea(l.bps, xs), (xs[i].startsect - l.dataStart) * l.bps + j) == PayloadCell(xs[i].payload, j)
  {
    var n := |xs| - 1;
    assert ExtentOk(l, xs[i]);
    TiledSectors(l, xs[i]);
    TiledPrefix(l, xs);
    DataAreaSize(l, xs[..n]);
    MulMono(0, xs[i].start - 2, l.spc);
    MulMono(0, xs[i].startsect - l.dataStart, l.bps);
    if i < n {
      DataAreaInside(l, xs[..n], i, j);
      TiledOrder(l, xs, i, n);
      MulMono(xs[i].endsect - l.dataStart, xs[n].startsect - l.dataStart, l.bps);
      MulSplit(xs[i].startsect - l.dataStart, xs[i].endsect - xs[i].startsect, l.bps);
    }
  }

  // ---------------------------------------------------------------- the image

  /** `fat` holds the bytes of each copy of the table, `boot` and `mbr` the 512 bytes of the boot record
      and of the master boot record, some of which may be left unwritten. */
  datatype Volume = Volume(
    l: Layout,
    xs: seq<Extent>,
    fat: seq<byte>,
    root: seq<Block>,
    boot: seq<Cell>,
    mbr: seq<Cell>)

  ghost predicate TableByte(v: Volume, j: int)
    requires !v.l.fs.FAT12? && 0 <= j < |v.fat|
  {
    v.fat[j] == FatByte(v.l.fs, v.xs, j)
  }

  /** The table of a volume is the one its extents define. */
  ghost predicate TableOk(v: Volume)
    requires !v.l.fs.FAT12?
  {
    && |v.fat| == v.l.fatSectors * v.l.bps
    && forall j {:trigger TableByte(v, j)} :: 0 <= j < |v.fat| ==> TableByte(v, j)
  }

  function TableCell(v: Volume, j: nat): Cell {
    if j < |v.fat| then Is(v.fat[j]) else Any
  }

  function FreeClusters(v: Volume): u32 {
    Wrap32(v.l.clusters - (ClusterEnd(v.xs) - 2))
  }

  /** Byte `r` of the FAT32 FSInfo sector. */
  function FsInfoByte(free: u32, next: nat, r: nat): byte {
    if r < 4 then LeByte(0x41615252, r)
    else if r < 484 then 0
    else if r < 488 then LeByte(0x61417272, r - 484)
    else if r < 492 then LeByte(free, r - 488)
    else if r < 496 then LeByte(next, r - 492)
    else if r < 508 then 0
    else LeByte(0xaa550000, r - 508)
  }

  function RecordCell(rec: seq<Cell>, r: nat): Cell {
    if r < 512 && r < |rec| then rec[r] else Any
  }

  /** Byte `r` of reserved sector `s`. */
  function BootCell(v: Volume, s: nat, r: nat): Cell {
    if v.l.fs.FAT32? && s == 1 then (if r < 512 then Is(FsInfoByte(FreeClusters(v), ClusterEnd(v.xs), r)) else Any)
    else if s == 0 || (v.l.fs.FAT32? && s == 6) then RecordCell(v.boot, r)
    else Is(0)
  }

  function BootAt(v: Volume, o: nat): Cell
    requires v.l.bps > 0
  {
    BootCell(v, o / v.l.bps, o % v.l.bps)
  }

  /** Byte `o` of the partition. */
  ghost function PartCell(v: Volume, o: nat): Cell
    requires Regions(v.l) && !v.l.fs.FAT12?
  {
    var l := v.l;
    if o < l.fat1Start * l.bps then BootAt(v, o)
    else if o < l.fat2Start * l.bps then TableCell(v, o - l.fat1Start * l.bps)
    else if o < l.rootStart * l.bps then TableCell(v, o - l.fat2Start * l.bps)
    else if o < l.dataStart * l.bps then DirCell(v.root, o - l.rootStart * l.bps)
    else CellAt(DataArea(l.bps, v.xs), o - l.dataStart * l.bps)
  }

  /** The order of the region boundaries in bytes. */
  lemma Boundaries(l: Layout)
    requires Regions(l)
    ensures l.fat1Start * l.bps <= l.fat2Start * l.bps <= l.rootStart * l.bps <= l.dataStart * l.bps
  {
    MulMono(l.fat1Start, l.fat2Start, l.bps);
    MulMono(l.fat2Start, l.rootStart, l.bps);
    MulMono(l.rootStart, l.dataStart, l.bps);
  }

  lemma PartInFat(v: Volume, start: nat, lo: nat, j: nat)
    requires Regions(v.l) && !v.l.fs.FAT12? && (start == v.l.fat1Start || start == v.l.fat2Start)
    requires lo == start * v.l.bps && j < v.l.fatSectors * v.l.bps
    ensures PartCell(v, lo + j) == TableCell(v, j)
  {
    Boundaries(v.l);
    MulSplit(start, v.l.fatSectors, v.l.bps);
  }

  lemma PartInData(v: Volume, lo: nat, j: nat)
    requires Regions(v.l) && !v.l.fs.FAT12? && lo == v.l.dataStart * v.l.bps
    ensures PartCell(v, lo + j) == CellAt(DataArea(v.l.bps, v.xs), j)
  {
    Boundaries(v.l);
  }

  /** Byte `o` of the whole device. */
  ghost function ImageCell(v: Volume, o: nat): Cell
    requires Regions(v.l) && !v.l.fs.FAT12?
  {
    var l := v.l;
    if o >= l.mbrSectors * l.bps then PartCell(v, o - l.mbrSectors * l.bps)
    else if o < l.bps then RecordCell(v.mbr, o)
    else Is(0)
  }

  function TotalSectors(l: Layout): nat {
    l.sectors + l.mbrSectors
  }

  function ImageBytes(l: Layout): nat {
    TotalSectors(l) * l.bps
  }

  ghost predicate ImageByte(v: Volume, img: seq<Cell>, o: int)
    requires Regions(v.l) && !v.l.fs.FAT12? && 0 <= o < |img|
  {
    img[o] == ImageCell(v, o)
  }

  /** `img` is the whole device, byte by byte. */
  ghost predicate IsImage(v: Volume, img: seq<Cell>) {
    && Regions(v.l) && !v.l.fs.FAT12?
    && |img| == ImageBytes(v.l)
    && forall o {:trigger ImageByte(v, img, o)} :: 0 <= o < |img| ==> ImageByte(v, img, o)
  }

  ghost function Image(v: Volume): (img: seq<Cell>)
    requires Regions(v.l) && !v.l.fs.FAT12?
    ensures IsImage(v, img)
  {
    seq(ImageBytes(v.l), o requires 0 <= o => ImageCell(v, o))
  }
}
