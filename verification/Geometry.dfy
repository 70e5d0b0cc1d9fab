/** Sizing the tables, the root directory and the data area of a new drive (libvdf/drive.c). The code
    computes in wrapping 32-bit arithmetic; `Ideal` is the same plan in unbounded integers. */
module Geometry {
  import opened Bytes
  import opened Volume

  datatype Option<T> = None | Some(value: T)

  /** The creation flags that matter for the layout. */
  datatype Options = Options(align: bool, failWarn: bool, mbr: bool, mbrPad: bool, vfat: bool)

  predicate PowerOfTwo(n: nat) {
    n == 1 || n == 2 || n == 4 || n == 8 || n == 16 || n == 32 || n == 64 || n == 128 || n == 256 || n == 512
  }

  /** Cluster sizes that can be chosen; only the automatic FAT16 choice exceeds 128 sectors. */
  predicate ClusterChoice(fs: FileSys, spc: nat) {
    PowerOfTwo(spc) && (spc <= 128 || fs.FAT16?)
  }

  // ---------------------------------------------------------------- the plan in unbounded integers

  /** The largest multiple of `m` not above `x`. */
  function MultipleBelow(x: nat, m: nat): nat
    requires m > 0
  {
    if x < m then 0 else m + MultipleBelow(x - m, m)
  }

  /** Division, by repeated subtraction. */
  function Quotient(x: nat, m: nat): nat
    requires m > 0
  {
    if x < m then 0 else 1 + Quotient(x - m, m)
  }

  lemma {:induction false} QuotientBounds(x: nat, m: nat)
    requires m > 0
    ensures Quotient(x, m) * m <= x < Quotient(x, m) * m + m
    ensures MultipleBelow(x, m) == Quotient(x, m) * m
  {
    if x >= m {
      QuotientBounds(x - m, m);
      MulSplit(1, Quotient(x - m, m), m);
    }
  }

  lemma QuotientIsDivision(x: nat, m: nat)
    requires m > 0
    ensures x / m == Quotient(x, m)
  {
    QuotientBounds(x, m);
    QuotientUnique(x, m, Quotient(x, m));
  }

  /** `x & ~(m - 1)` for a power of two. */
  function Masked(x: nat, m: nat): (r: nat)
    requires m > 0
    ensures r <= x
  {
    x - x % m
  }

  lemma MaskIsMultiple(x: nat, m: nat)
    requires m > 0
    ensures Masked(x, m) == MultipleBelow(x, m)
  {
    QuotientBounds(x, m);
    QuotientIsDivision(x, m);
    assert x == m * (x / m) + x % m;
  }

  function Aligned(n: nat, spc: nat, align: bool): nat
    requires spc > 0
  {
    if align then MultipleBelow(n + spc - 1, spc) else n
  }

  function FatStart(fs: FileSys, spc: nat, align: bool): nat
    requires spc > 0
  {
    if fs.FAT32? then (if align then MultipleBelow(32 + spc, spc) else 32) else if align then spc else 1
  }

  function RootLength(fs: FileSys, rootCnt: nat, bps: nat, spc: nat, align: bool): nat
    requires bps > 0 && spc > 0
  {
    if fs.FAT32? then 0 else Aligned(CeilDiv(32 * rootCnt, bps), spc, align)
  }

  /** The bytes the code reserves for the entries of `clusters` clusters. */
  function FatBytes(fs: FileSys, clusters: nat): nat {
    match fs
    case FAT12 => clusters * 3 / 2 + 1
    case FAT16 => clusters * 2
    case FAT32 => clusters * 4
  }

  function FatLength(fs: FileSys, clusters: nat, bps: nat, spc: nat, align: bool): nat
    requires bps > 0 && spc > 0
  {
    Aligned(CeilDiv(FatBytes(fs, clusters), bps), spc, align)
  }

  function MbrLength(spc: nat, o: Options): nat {
    if !o.mbr then 0 else if o.mbrPad then spc else 1
  }

  predicate CountAccepted(fs: FileSys, clusters: nat, failWarn: bool) {
    match fs
    case FAT12 => clusters <= 4084
    case FAT16 => 4085 <= clusters <= 65524
    case FAT32 => (if failWarn then 65526 else 65525) <= clusters <= 0xfffffef - 2
  }

  function Planned(fs: FileSys, sectors: nat, bps: nat, spc: nat, rootCnt: int, o: Options,
                   clusters: nat, fatSectors: nat, fat1: nat, rootSectors: nat, dataStart: nat): Layout
  {
    Layout(fs, bps, spc, sectors, clusters, rootCnt, fatSectors, fat1, fat1 + fatSectors,
           fat1 + fatSectors + fatSectors,
           rootSectors, dataStart, MbrLength(spc, o), o.vfat)
  }

  /** The plan once the size of a table is known. */
  function PlanWith(fs: FileSys, sectors: nat, bps: nat, spc: nat, rootCnt: int, o: Options, fat1: nat, root: nat,
                    fat: nat): Option<Layout>
    requires spc > 0
  {
    var data := fat1 + root + fat * 2;
    if sectors < data || !CountAccepted(fs, Quotient(sectors - data, spc), o.failWarn) then None
    else Some(Planned(fs, sectors, bps, spc, rootCnt, o, Quotient(sectors - data, spc), fat, fat1, root, data))
  }

  /** The tables are sized for as many clusters as there would be without any table. */
  function IdealFrom(fs: FileSys, sectors: nat, bps: nat, spc: nat, rootCnt: int, o: Options, fat1: nat,
                     root: nat): Option<Layout>
    requires bps > 0 && spc > 0
  {
    if sectors < fat1 + root then None
    else PlanWith(fs, sectors, bps, spc, rootCnt, o, fat1, root,
                  FatLength(fs, Quotient(sectors - (fat1 + root), spc), bps, spc, o.align))
  }

  function Ideal(fs: FileSys, sectors: nat, bps: nat, spc: nat, rootCnt: nat, o: Options): Option<Layout>
    requires bps > 0 && spc > 0
  {
    IdealFrom(fs, sectors, bps, spc, rootCnt, o, FatStart(fs, spc, o.align), RootLength(fs, rootCnt, bps, spc, o.align))
  }

  // ---------------------------------------------------------------- the code

  /** The rounding of `root_sectors` and `fat_sectors` to whole sectors, in 32 bits. */
  method WholeSectors(bytes: int, bps: nat) returns (n: u32)
    requires SectorSize(bps)
    ensures n <= 8388607
    ensures 0 <= bytes < TWO32 - 4096 ==> n == CeilDiv(bytes, bps)
  {
    n := Wrap32(Wrap32(bytes) + bps - 1);
    if 0 <= bytes < TWO32 - 4096 {
      Wrap32Id(bytes);
      Wrap32Id(bytes + bps - 1);
      CeilDivIsDivision(bytes, bps);
    }
    QuotientBound(n, bps);
    n := n / bps;
  }

  lemma QuotientBound(n: u32, bps: nat)
    requires SectorSize(bps)
    ensures 0 <= n / bps <= 8388607
  {
  }

  method AlignSectors(n: u32, spc: nat, align: bool) returns (m: u32)
    requires n <= 8388607 && PowerOfTwo(spc)
    ensures m == Aligned(n, spc, align) && m <= n + spc
  {
    m := n;
    if align {
      Wrap32Id(n + spc - 1);
      MaskIsMultiple(n + spc - 1, spc);
      m := Masked(Wrap32(n + spc - 1), spc);
    }
  }

  method SectorsNeeded(bytes: int, bps: nat, spc: nat, align: bool) returns (n: u32)
    requires SectorSize(bps) && PowerOfTwo(spc)
    ensures n <= 8388607 + spc
    ensures 0 <= bytes < TWO32 - 4096 ==> n == Aligned(CeilDiv(bytes, bps), spc, align)
  {
    n := WholeSectors(bytes, bps);
    n := AlignSectors(n, spc, align);
  }

  /** The bytes reserved for the entries of `clusters` clusters, in 32 bits. */
  method EntryBytes(fs: FileSys, clusters: u32) returns (bytes: u32)
    ensures clusters < MODEST ==> bytes == FatBytes(fs, clusters) < TWO32 - 4096
  {
    match fs {
      case FAT12 =>
        bytes := Wrap32(clusters * 3);
        bytes := Wrap32(bytes / 2 + 1);
      case FAT16 => bytes := Wrap32(clusters * 2);
      case FAT32 => bytes := Wrap32(clusters * 4);
    }
  }

  /** `fat_sectors` for a cluster count. */
  method FatSectors(fs: FileSys, clusters: u32, bps: nat, spc: nat, align: bool) returns (n: u32)
    requires SectorSize(bps) && PowerOfTwo(spc)
    ensures n <= 8388607 + spc
    ensures clusters < MODEST ==> n == FatLength(fs, clusters, bps, spc, align)
  {
    var bytes := EntryBytes(fs, clusters);
    n := SectorsNeeded(bytes, bps, spc, align);
  }

  /** Below this count no step of the table size computation wraps. */
  const MODEST: int := 300000000

  // ---------------------------------------------------------------- quotients

  lemma DivAtLeast(x: nat, m: nat, q: nat)
    requires m > 0 && q * m <= x
    ensures Quotient(x, m) >= q
  {
    var d := Quotient(x, m);
    QuotientBounds(x, m);
    if d < q {
      MulMono(d + 1, q, m);
    }
  }

  lemma DivBelow(x: nat, m: nat, q: nat)
    requires m > 0 && x < q * m
    ensures Quotient(x, m) < q
  {
    var d := Quotient(x, m);
    QuotientBounds(x, m);
    if q <= d {
      MulMono(q, d, m);
    }
  }

  lemma DivMul(x: nat, m: nat)
    requires m > 0
    ensures Quotient(x, m) * m <= x < (Quotient(x, m) + 1) * m
  {
    QuotientBounds(x, m);
    MulSplit(Quotient(x, m), 1, m);
  }

  lemma CeilDivSectors(n: nat, bps: nat)
    requires SectorSize(bps)
    ensures 512 * CeilDiv(n, bps) < n + 512 && n <= CeilDiv(n, bps) * bps
    ensures n > 0 ==> CeilDiv(n, bps) > 0
  {
    var r := CeilDiv(n, bps);
    CeilDivBounds(n, bps);
    if r > 0 {
      MulSplit(r - 1, 1, bps);
      MulMono(512, bps, r - 1);
    }
  }

  // ---------------------------------------------------------------- how the plan can go wrong

  /** The bound on both tables together, however wrong the estimate. */
  const MOST: int := 16777214 + 1024

  lemma FatStartBound(fs: FileSys, spc: nat, align: bool)
    requires PowerOfTwo(spc)
    ensures 0 < FatStart(fs, spc, align) <= 32 + spc
  {
    QuotientBounds(32 + spc, spc);
  }

  lemma RootBound(fs: FileSys, rootCnt: nat, bps: nat, spc: nat, align: bool)
    requires SectorSize(bps) && PowerOfTwo(spc) && rootCnt <= 65535
    ensures RootLength(fs, rootCnt, bps, spc, align) <= 4096 + spc
  {
    CeilDivSectors(32 * rootCnt, bps);
    AlignedPositive(CeilDiv(32 * rootCnt, bps), spc);
  }

  /** A wrapped sector count is never accepted, except on FAT32 with large clusters. */
  lemma WrapRejected(fs: FileSys, sectors: u32, data: u32, spc: nat, failWarn: bool)
    requires ClusterChoice(fs, spc) && (fs.FAT32? ==> spc <= 8)
    requires sectors < data <= 6000 + MOST
    ensures !CountAccepted(fs, Quotient(Wrap32(sectors - data), spc), failWarn)
  {
    var w := sectors - data + TWO32;
    assert Wrap32(sectors - data) == w;
    if fs.FAT32? {
      MulMono(spc, 8, 268435438);
      DivAtLeast(w, spc, 268435438);
    } else {
      MulMono(spc, 512, 65525);
      DivAtLeast(w, spc, 65525);
    }
  }

  /** On FAT32 with clusters of 32 sectors or more it is always accepted. */
  lemma WrapAccepted(sectors: u32, data: u32, spc: nat, failWarn: bool)
    requires spc == 32 || spc == 64 || spc == 128
    requires sectors < data <= 6000 + MOST
    ensures CountAccepted(FAT32, Quotient(Wrap32(sectors - data), spc), failWarn)
  {
    QuotientIsDivision(Wrap32(sectors - data), spc);
    assert Wrap32(sectors - data) == sectors - data + TWO32;
  }

  /** With 16 sectors the result is just below or just above the limit. */
  lemma WrapSixteen(sectors: u32, data: u32, failWarn: bool)
    requires sectors < data <= 6000 + MOST
    ensures CountAccepted(FAT32, Quotient(Wrap32(sectors - data), 16), failWarn) == (data - sectors > 288)
  {
    QuotientIsDivision(Wrap32(sectors - data), 16);
    assert Wrap32(sectors - data) == sectors - data + TWO32;
  }

  /** An accepted count means that the estimate was small enough to be exact. */
  lemma AcceptedModest(sectors: nat, before: nat, fat: nat, spc: nat)
    requires PowerOfTwo(spc) && fat <= 8388607 + spc && before + fat * 2 <= sectors
    requires Quotient(sectors - (before + fat * 2), spc) <= 0xfffffef - 2
    ensures Quotient(sectors - before, spc) < MODEST
  {
    var v := sectors - (before + fat * 2);
    DivMul(v, spc);
    MulMono(Quotient(v, spc) + 1, 0xfffffef - 1, spc);
    MulMono(1, spc, 16777214);
    MulSplit(0xfffffef - 1, 2, spc);
    MulSplit(0xfffffef + 1, 16777214, spc);
    DivBelow(sectors - before, spc, 0xfffffef + 1 + 16777214);
  }

  lemma TableBound(fs: FileSys, clusters: nat, bps: nat, spc: nat, align: bool)
    requires SectorSize(bps) && PowerOfTwo(spc)
    ensures 128 * FatLength(fs, clusters, bps, spc, align) <= clusters + 128 + 128 * spc
    ensures clusters > 0 || fs.FAT12? ==> FatLength(fs, clusters, bps, spc, align) > 0
  {
    CeilDivSectors(FatBytes(fs, clusters), bps);
    if align {
      AlignedPositive(CeilDiv(FatBytes(fs, clusters), bps), spc);
    }
  }

  lemma AlignedPositive(n: nat, spc: nat)
    requires spc > 0
    ensures n <= Aligned(n, spc, true) < n + spc
    ensures n > 0 ==> Aligned(n, spc, true) >= spc
  {
    QuotientBounds(n + spc - 1, spc);
  }

  /** So does an accepted plan. */
  lemma IdealModest(sectors: nat, before: nat, spc: nat, c: nat, fat: nat)
    requires PowerOfTwo(spc) && before + fat * 2 <= sectors && c == Quotient(sectors - before, spc)
    requires 128 * fat <= c + 128 + 128 * spc
    requires Quotient(sectors - (before + fat * 2), spc) <= 0xfffffef - 2
    ensures c < MODEST
  {
    var v := sectors - (before + fat * 2);
    DivMul(sectors - before, spc);
    DivMul(v, spc);
    ModestBound(sectors - before, v, spc, c, Quotient(v, spc), fat);
  }

  lemma ModestBound(u: nat, v: nat, spc: nat, c: nat, q: nat, fat: nat)
    requires spc > 0 && c * spc <= u == v + fat * 2 && v < (q + 1) * spc
    requires 128 * fat <= c + 128 + 128 * spc && q <= 0xfffffef - 2
    ensures c < MODEST
  {
    MulMono(q + 1, 0xfffffef - 1, spc);
    MulMono(1, spc, c);
    FewEnough(c, c * spc, spc);
    if c >= MODEST {
      MulMono(MODEST, c, spc);
    }
  }

  lemma FewEnough(c: nat, p: nat, spc: nat)
    requires 0 < spc && c <= p && 64 * p <= 64 * ((0xfffffef - 1) * spc) + c + 128 + 128 * spc
    ensures p < MODEST * spc
  {
  }

  lemma LargeEstimateRejected(fs: FileSys, sectors: u32, before: nat, fat: nat, spc: nat, failWarn: bool)
    requires PowerOfTwo(spc) && fat <= 8388607 + spc && before <= sectors && Quotient(sectors - before, spc) >= MODEST
    ensures before + fat * 2 <= sectors
    ensures !CountAccepted(fs, Quotient(sectors - (before + fat * 2), spc), failWarn)
  {
    DivMul(sectors - before, spc);
    MulMono(1, spc, Quotient(sectors - before, spc));
    if Quotient(sectors - (before + fat * 2), spc) <= 0xfffffef - 2 {
      AcceptedModest(sectors, before, fat, spc);
    }
  }

  // ---------------------------------------------------------------- FAT32 with large clusters

  predicate MisplacedAt(fs: FileSys, sectors: nat, spc: nat, align: bool, fat1: nat) {
    && fs.FAT32?
    && (|| (spc >= 16 && sectors < fat1)
        || (align && spc >= 32 && fat1 + spc <= sectors < fat1 + 2 * spc))
  }

  /** The exact inputs for which an ill-formed layout is accepted: the drive is smaller than what precedes
      the data area, and the wrapped cluster count happens to lie within the limits. */
  predicate Misplaced(fs: FileSys, sectors: nat, spc: nat, align: bool)
    requires spc > 0
  {
    MisplacedAt(fs, sectors, spc, align, FatStart(fs, spc, align))
  }

  lemma HugeEstimate(sectors: u32, before: nat, bps: nat, spc: nat, align: bool)
    requires SectorSize(bps) && (spc == 16 || spc == 32 || spc == 64 || spc == 128) && sectors < before <= 6000
    ensures var c := Quotient(Wrap32(sectors - before), spc);
            0 <= c < MODEST && FatLength(FAT32, c, bps, spc, align) > 288
  {
    var w := sectors - before + TWO32;
    assert Wrap32(sectors - before) == w;
    var c := Quotient(w, spc);
    QuotientIsDivision(w, spc);
    assert 33000000 <= c < MODEST;
    CeilDivSectors(c * 4, bps);
    var r := CeilDiv(c * 4, bps);
    if r <= 288 {
      MulMono(r, 288, bps);
    }
    AlignedPositive(r, spc);
  }

  /** With clusters of at least 16 sectors the tables fit behind what precedes them, except in a drive
      of exactly one estimated cluster whose tables are aligned to two. */
  lemma TablesFit(sectors: nat, before: nat, bps: nat, spc: nat, align: bool)
    requires SectorSize(bps) && (spc == 16 || spc == 32 || spc == 64 || spc == 128) && before <= sectors
    ensures var fat := FatLength(FAT32, Quotient(sectors - before, spc), bps, spc, align);
            (sectors < before + fat * 2) == (align && before + spc <= sectors < before + 2 * spc)
    ensures align && before + spc <= sectors < before + 2 * spc ==>
              FatLength(FAT32, Quotient(sectors - before, spc), bps, spc, align) == spc
  {
    var u := sectors - before;
    var c := Quotient(u, spc);
    DivMul(u, spc);
    if c == 0 {
      EmptyTable(bps, spc, align);
    } else if c <= 128 {
      SmallTable(c, bps, spc, align);
      MulMono(2, spc, c);
      if c > 1 {
        MulMono(2, c, spc);
      }
    } else {
      TableBound(FAT32, c, bps, spc, align);
      MulMono(16, spc, c);
      MulMono(128, c, spc);
    }
  }

  lemma EmptyTable(bps: nat, spc: nat, align: bool)
    requires bps > 0 && spc > 0
    ensures FatLength(FAT32, 0, bps, spc, align) == 0
  {
  }

  lemma SmallTable(c: nat, bps: nat, spc: nat, align: bool)
    requires SectorSize(bps) && spc > 0 && 0 < c <= 128
    ensures FatLength(FAT32, c, bps, spc, align) == if align then spc else 1
  {
    assert CeilDiv(4 * c, bps) == 1;
    assert MultipleBelow(1 + spc - 1, spc) == spc + MultipleBelow(0, spc);
  }

  // ---------------------------------------------------------------- the code against the plan

  /** What `PlanDrive` computes: `before` sectors precede the tables, `fat` is the table size it arrives
      at from its own estimate, and `clusters` its final count. */
  ghost predicate Computed(fs: FileSys, sectors: u32, before: nat, bps: nat, spc: nat, align: bool, fat: nat,
                           clusters: nat)
    requires bps > 0 && spc > 0
  {
    && fat <= 8388607 + spc
    && (var estimate := Quotient(Wrap32(sectors - before), spc);
        estimate < MODEST ==> fat == FatLength(fs, estimate, bps, spc, align))
    && clusters == Quotient(Wrap32(sectors - (before + fat * 2)), spc)
  }

  lemma MisplacedAccepted(fs: FileSys, sectors: u32, before: nat, bps: nat, spc: nat, align: bool, fat: nat,
                          clusters: nat, failWarn: bool)
    requires SectorSize(bps) && ClusterChoice(fs, spc) && before <= 6000
    requires Computed(fs, sectors, before, bps, spc, align, fat, clusters)
    requires MisplacedAt(fs, sectors, spc, align, before)
    ensures sectors < before + fat * 2 && CountAccepted(fs, clusters, failWarn)
  {
    if sectors < before {
      HugeEstimate(sectors, before, bps, spc, align);
    } else {
      Wrap32Id(sectors - before);
      TablesFit(sectors, before, bps, spc, align);
      DivBelow(sectors - before, spc, 2);
    }
    if spc == 16 {
      WrapSixteen(sectors, before + fat * 2, failWarn);
    } else {
      WrapAccepted(sectors, before + fat * 2, spc, failWarn);
    }
  }

  /** Outside of those inputs a drive that is too small is rejected. */
  lemma TooSmallRejected(fs: FileSys, sectors: u32, before: nat, bps: nat, spc: nat, align: bool, fat: nat,
                         clusters: nat, failWarn: bool)
    requires SectorSize(bps) && ClusterChoice(fs, spc) && before <= 6000
    requires Computed(fs, sectors, before, bps, spc, align, fat, clusters)
    requires !MisplacedAt(fs, sectors, spc, align, before)
    requires sectors < before + fat * 2
    ensures !CountAccepted(fs, clusters, failWarn)
  {
    if fs.FAT32? && spc >= 16 {
      Wrap32Id(sectors - before);
      if Quotient(sectors - before, spc) >= MODEST {
        LargeEstimateRejected(fs, sectors, before, fat, spc, failWarn);
      } else {
        TablesFit(sectors, before, bps, spc, align);
        WrapSixteen(sectors, before + fat * 2, failWarn);
      }
    } else {
      WrapRejected(fs, sectors, before + fat * 2, spc, failWarn);
    }
  }

  /** Where the drive is large enough, code and plan agree. */
  lemma LargeAgrees(fs: FileSys, sectors: u32, before: nat, bps: nat, spc: nat, align: bool, fat: nat, clusters: nat,
                    failWarn: bool, ideal: nat)
    requires SectorSize(bps) && ClusterChoice(fs, spc) && before <= sectors
    requires Computed(fs, sectors, before, bps, spc, align, fat, clusters)
    requires ideal == FatLength(fs, Quotient(sectors - before, spc), bps, spc, align)
    ensures CountAccepted(fs, clusters, failWarn) && before + fat * 2 <= sectors ==>
              fat == ideal && clusters == Quotient(sectors - (before + fat * 2), spc)
    ensures before + ideal * 2 <= sectors &&
            CountAccepted(fs, Quotient(sectors - (before + ideal * 2), spc), failWarn) ==>
              fat == ideal && clusters == Quotient(sectors - (before + fat * 2), spc)
  {
    Wrap32Id(sectors - before);
    if before + fat * 2 <= sectors {
      Wrap32Id(sectors - (before + fat * 2));
      if CountAccepted(fs, clusters, failWarn) {
        AcceptedModest(sectors, before, fat, spc);
      }
    }
    if before + ideal * 2 <= sectors && CountAccepted(fs, Quotient(sectors - (before + ideal * 2), spc), failWarn) {
      TableBound(fs, Quotient(sectors - before, spc), bps, spc, align);
      IdealModest(sectors, before, spc, Quotient(sectors - before, spc), ideal);
    }
  }

  function Result(fs: FileSys, sectors: nat, bps: nat, spc: nat, rootCnt: int, o: Options,
                  clusters: nat, fat: nat, fat1: nat, root: nat): Option<Layout> {
    if CountAccepted(fs, clusters, o.failWarn)
    then Some(Planned(fs, sectors, bps, spc, rootCnt, o, clusters, fat, fat1, root, fat1 + root + fat * 2)) else None
  }

  lemma ResultIsPlan(fs: FileSys, sectors: nat, bps: nat, spc: nat, rootCnt: int, o: Options,
                     fat1: nat, root: nat, ideal: nat, fat: nat, clusters: nat)
    requires spc > 0
    requires sectors < fat1 + root + fat * 2 ==> !CountAccepted(fs, clusters, o.failWarn)
    requires CountAccepted(fs, clusters, o.failWarn) && fat1 + root + fat * 2 <= sectors ==>
               fat == ideal && clusters == Quotient(sectors - (fat1 + root + fat * 2), spc)
    requires fat1 + root + ideal * 2 <= sectors &&
             CountAccepted(fs, Quotient(sectors - (fat1 + root + ideal * 2), spc), o.failWarn) ==>
               fat == ideal && clusters == Quotient(sectors - (fat1 + root + fat * 2), spc)
    ensures Result(fs, sectors, bps, spc, rootCnt, o, clusters, fat, fat1, root) ==
            PlanWith(fs, sectors, bps, spc, rootCnt, o, fat1, root, ideal)
  {
  }

  lemma CodeFollowsPlan(fs: FileSys, sectors: u32, bps: nat, spc: nat, rootCnt: nat, o: Options, fat1: nat, root: nat,
                        fat: nat, clusters: nat)
    requires SectorSize(bps) && ClusterChoice(fs, spc) && fat1 + root <= 6000
    requires Computed(fs, sectors, fat1 + root, bps, spc, o.align, fat, clusters)
    requires !MisplacedAt(fs, sectors, spc, o.align, fat1 + root)
    ensures Result(fs, sectors, bps, spc, rootCnt, o, clusters, fat, fat1, root) ==
            IdealFrom(fs, sectors, bps, spc, rootCnt, o, fat1, root)
  {
    if sectors < fat1 + root + fat * 2 {
      TooSmallRejected(fs, sectors, fat1 + root, bps, spc, o.align, fat, clusters, o.failWarn);
    }
    if fat1 + root <= sectors {
      var ideal := FatLength(fs, Quotient(sectors - (fat1 + root), spc), bps, spc, o.align);
      LargeFollowsPlan(fs, sectors, bps, spc, rootCnt, o, fat1, root, fat, clusters, ideal);
    }
  }

  lemma LargeFollowsPlan(fs: FileSys, sectors: u32, bps: nat, spc: nat, rootCnt: nat, o: Options, fat1: nat, root: nat,
                         fat: nat, clusters: nat, ideal: nat)
    requires SectorSize(bps) && ClusterChoice(fs, spc) && fat1 + root <= sectors
    requires Computed(fs, sectors, fat1 + root, bps, spc, o.align, fat, clusters)
    requires sectors < fat1 + root + fat * 2 ==> !CountAccepted(fs, clusters, o.failWarn)
    requires ideal == FatLength(fs, Quotient(sectors - (fat1 + root), spc), bps, spc, o.align)
    ensures Result(fs, sectors, bps, spc, rootCnt, o, clusters, fat, fat1, root) ==
            PlanWith(fs, sectors, bps, spc, rootCnt, o, fat1, root, ideal)
  {
    LargeAgrees(fs, sectors, fat1 + root, bps, spc, o.align, fat, clusters, o.failWarn, ideal);
    ResultIsPlan(fs, sectors, bps, spc, rootCnt, o, fat1, root, ideal, fat, clusters);
  }

  /** What precedes the tables and the root directory. */
  method PlanFront(fs: FileSys, bps: nat, spc: nat, rootCnt: int, align: bool) returns (fat1: nat, root: u32)
    requires SectorSize(bps) && ClusterChoice(fs, spc)
    ensures fat1 == FatStart(fs, spc, align) && fat1 <= 32 + spc && root <= 8388607 + spc
    ensures 0 <= rootCnt <= 65535 ==> root == RootLength(fs, rootCnt, bps, spc, align) && fat1 + root <= 6000
  {
    if fs.FAT32? {
      fat1, root := 32, 0;
      if align {
        MaskIsMultiple(fat1 + spc, spc);
        fat1 := Masked(fat1 + spc, spc);
      }
    } else {
      fat1 := if align then spc else 1;
      root := SectorsNeeded(rootCnt * 32, bps, spc, align);
      if 0 <= rootCnt <= 65535 {
        RootBound(fs, rootCnt, bps, spc, align);
      }
    }
    FatStartBound(fs, spc, align);
  }

  method CountClusters(sectors: u32, data: u32, spc: nat) returns (clusters: u32)
    requires spc > 0
    ensures clusters == Quotient(Wrap32(sectors - data), spc)
  {
    QuotientIsDivision(Wrap32(sectors - data), spc);
    clusters := Wrap32(sectors - data) / spc;
  }

  /** The size of a table from the estimate, then the final cluster count. */
  method PlanTables(fs: FileSys, sectors: u32, before: nat, bps: nat, spc: nat,
                    align: bool) returns (fat: u32, data: u32, clusters: u32)
    requires SectorSize(bps) && ClusterChoice(fs, spc) && before <= 8388607 + 1024
    ensures Computed(fs, sectors, before, bps, spc, align, fat, clusters) && data == before + fat * 2
  {
    clusters := CountClusters(sectors, before, spc);
    fat := FatSectors(fs, clusters, bps, spc, align);
    Wrap32Id(fat * 2);
    Wrap32Id(before + fat * 2);
    data := Wrap32(before + Wrap32(fat * 2));
    clusters := CountClusters(sectors, data, spc);
  }

  predicate Describes(l: Layout, fs: FileSys, sectors: nat, bps: nat, spc: nat) {
    l.fs == fs && l.sectors == sectors && l.bps == bps && l.spc == spc
  }

  /** What is promised about the outcome of planning. */
  ghost predicate Outcome(fs: FileSys, sectors: u32, bps: nat, spc: nat, rootCnt: nat, o: Options, r: Option<Layout>)
    requires bps > 0 && spc > 0
  {
    if Misplaced(fs, sectors, spc, o.align) then r.Some? && r.value.sectors < r.value.dataStart
    else r == Ideal(fs, sectors, bps, spc, rootCnt, o)
  }

  lemma OutcomeHolds(fs: FileSys, sectors: u32, bps: nat, spc: nat, rootCnt: nat, o: Options, fat1: nat, root: nat,
                     fat: nat, clusters: nat)
    requires SectorSize(bps) && ClusterChoice(fs, spc) && fat1 + root <= 6000
    requires fat1 == FatStart(fs, spc, o.align) && root == RootLength(fs, rootCnt, bps, spc, o.align)
    requires Computed(fs, sectors, fat1 + root, bps, spc, o.align, fat, clusters)
    ensures Outcome(fs, sectors, bps, spc, rootCnt, o,
                    Result(fs, sectors, bps, spc, rootCnt, o, clusters, fat, fat1, root))
  {
    if MisplacedAt(fs, sectors, spc, o.align, fat1 + root) {
      MisplacedAccepted(fs, sectors, fat1 + root, bps, spc, o.align, fat, clusters, o.failWarn);
    } else {
      CodeFollowsPlan(fs, sectors, bps, spc, rootCnt, o, fat1, root, fat, clusters);
    }
  }

  /** The case distinction on the file system at the end of `createdrive_ext`: the plan in unbounded
      integers, or, exactly for the misplaced inputs, a layout whose data area begins behind the drive. */
  method PlanDrive(fs: FileSys, sectors: u32, bps: nat, spc: nat, rootCnt: int, o: Options) returns (r: Option<Layout>)
    requires SectorSize(bps) && ClusterChoice(fs, spc)
    ensures 0 <= rootCnt <= 65535 ==> Outcome(fs, sectors, bps, spc, rootCnt, o, r)
    ensures r.Some? ==> Describes(r.value, fs, sectors, bps, spc)
  {
    var fat1, root := PlanFront(fs, bps, spc, rootCnt, o.align);
    var fat, data, clusters := PlanTables(fs, sectors, fat1 + root, bps, spc, o.align);
    r := Result(fs, sectors, bps, spc, rootCnt, o, clusters, fat, fat1, root);
    PlanKept(fs, sectors, bps, spc, rootCnt, o, fat1, root, fat, clusters, r);
  }

  lemma PlanKept(fs: FileSys, sectors: u32, bps: nat, spc: nat, rootCnt: int, o: Options, fat1: nat, root: nat,
                 fat: nat, clusters: nat, r: Option<Layout>)
    requires SectorSize(bps) && ClusterChoice(fs, spc) && fat1 == FatStart(fs, spc, o.align)
    requires 0 <= rootCnt <= 65535 ==> root == RootLength(fs, rootCnt, bps, spc, o.align) && fat1 + root <= 6000
    requires Computed(fs, sectors, fat1 + root, bps, spc, o.align, fat, clusters)
    requires r == Result(fs, sectors, bps, spc, rootCnt, o, clusters, fat, fat1, root)
    ensures 0 <= rootCnt <= 65535 ==> Outcome(fs, sectors, bps, spc, rootCnt, o, r)
    ensures r.Some? ==> Describes(r.value, fs, sectors, bps, spc)
  {
    if 0 <= rootCnt <= 65535 {
      OutcomeHolds(fs, sectors, bps, spc, rootCnt, o, fat1, root, fat, clusters);
    }
  }

  // ---------------------------------------------------------------- every planned layout is well formed

  lemma PlanParts(fs: FileSys, sectors: nat, bps: nat, spc: nat, rootCnt: nat, o: Options)
    requires SectorSize(bps) && ClusterChoice(fs, spc) && rootCnt <= 65535
    requires Ideal(fs, sectors, bps, spc, rootCnt, o).Some?
    ensures
      var l := Ideal(fs, sectors, bps, spc, rootCnt, o).value;
      var before := l.fat1Start + l.rootSectors;
      var estimate := Quotient(sectors - before, spc);
      && l.fs == fs && l.bps == bps && l.spc == spc && l.sectors == sectors
      && 0 < l.fat1Start && before <= sectors
      && l.fatSectors == FatLength(fs, estimate, bps, spc, o.align)
      && l.fat2Start == l.fat1Start + l.fatSectors && l.rootStart == l.fat2Start + l.fatSectors
      && l.dataStart == before + l.fatSectors * 2 <= sectors
      && l.clusters == Quotient(sectors - l.dataStart, spc)
      && CountAccepted(fs, l.clusters, o.failWarn)
      && (fs.FAT32? ==> l.rootSectors == 0)
  {
    FatStartBound(fs, spc, o.align);
  }

  /** The table is never empty and stays below 2^31 bytes. */
  lemma TableSizeOk(fs: FileSys, sectors: nat, before: nat, bps: nat, spc: nat, o: Options, fat: nat, estimate: nat,
                    clusters: nat)
    requires SectorSize(bps) && ClusterChoice(fs, spc) && before + fat * 2 <= sectors
    requires estimate == Quotient(sectors - before, spc) && fat == FatLength(fs, estimate, bps, spc, o.align)
    requires clusters == Quotient(sectors - (before + fat * 2), spc) && CountAccepted(fs, clusters, o.failWarn)
    ensures 0 < fat && clusters <= estimate < MODEST
  {
    TableBound(fs, estimate, bps, spc, o.align);
    IdealModest(sectors, before, spc, estimate, fat);
    QuotientMono(sectors - (before + fat * 2), sectors - before, spc);
  }

  lemma QuotientMono(a: nat, b: nat, m: nat)
    requires m > 0 && a <= b
    ensures Quotient(a, m) <= Quotient(b, m)
  {
    DivMul(a, m);
    DivAtLeast(b, m, Quotient(a, m));
  }

  lemma TableBytesSmall(fs: FileSys, estimate: nat, bps: nat, spc: nat, align: bool)
    requires SectorSize(bps) && PowerOfTwo(spc) && estimate < MODEST
    ensures FatLength(fs, estimate, bps, spc, align) * bps < 0x8000_0000
  {
    var n := CeilDiv(FatBytes(fs, estimate), bps);
    CeilDivBounds(FatBytes(fs, estimate), bps);
    AlignedPositive(n, spc);
    SmallProduct(n, FatLength(fs, estimate, bps, spc, align), bps, spc, FatBytes(fs, estimate));
  }

  lemma SmallProduct(n: nat, fat: nat, bps: nat, spc: nat, bytes: nat)
    requires n * bps < bytes + bps && bytes <= 4 * MODEST && fat <= n + spc && spc <= 512 && bps <= 4096
    ensures fat * bps < 0x8000_0000
  {
    MulMono(fat, n + spc, bps);
    MulSplit(n, spc, bps);
    MulMono(spc, 512, bps);
  }

  /** Every layout that the plan accepts satisfies the order of the regions, the bounds on the cluster
      count and the maximality of that count. */
  lemma PlanWellFormed(fs: FileSys, sectors: u32, bps: nat, spc: nat, rootCnt: nat, o: Options)
    requires SectorSize(bps) && ClusterChoice(fs, spc) && rootCnt <= 65535
    requires Ideal(fs, sectors, bps, spc, rootCnt, o).Some?
    ensures LayoutOk(Ideal(fs, sectors, bps, spc, rootCnt, o).value)
  {
    var l := Ideal(fs, sectors, bps, spc, rootCnt, o).value;
    PlanParts(fs, sectors, bps, spc, rootCnt, o);
    PartsWellFormed(l, l.fat1Start + l.rootSectors, o);
  }

  lemma PartsWellFormed(l: Layout, before: nat, o: Options)
    requires SectorSize(l.bps) && ClusterChoice(l.fs, l.spc) && l.sectors < TWO32
    requires 0 < l.fat1Start && before == l.fat1Start + l.rootSectors <= l.sectors
    requires l.fatSectors == FatLength(l.fs, Quotient(l.sectors - before, l.spc), l.bps, l.spc, o.align)
    requires l.fat2Start == l.fat1Start + l.fatSectors && l.rootStart == l.fat2Start + l.fatSectors
    requires l.dataStart == before + l.fatSectors * 2 <= l.sectors
    requires l.clusters == Quotient(l.sectors - l.dataStart, l.spc) && CountAccepted(l.fs, l.clusters, o.failWarn)
    requires l.fs.FAT32? ==> l.rootSectors == 0
    ensures LayoutOk(l)
  {
    var estimate := Quotient(l.sectors - before, l.spc);
    TableSizeOk(l.fs, l.sectors, before, l.bps, l.spc, o, l.fatSectors, estimate, l.clusters);
    TableBytesSmall(l.fs, estimate, l.bps, l.spc, o.align);
    DivMul(l.sectors - l.dataStart, l.spc);
  }

  /** The exact condition: what `PlanDrive` accepts is well formed if and only if the input is not misplaced. */
  lemma AcceptedWellFormed(fs: FileSys, sectors: u32, bps: nat, spc: nat, rootCnt: int, o: Options, r: Option<Layout>)
    requires SectorSize(bps) && ClusterChoice(fs, spc) && 0 <= rootCnt <= 65535
    requires Outcome(fs, sectors, bps, spc, rootCnt, o, r) && r.Some?
    ensures LayoutOk(r.value) <==> !Misplaced(fs, sectors, spc, o.align)
  {
    if !Misplaced(fs, sectors, spc, o.align) {
      PlanWellFormed(fs, sectors, bps, spc, rootCnt, o);
    }
  }

  /** A misplaced input: a FAT32 drive of ten sectors with clusters of 128 sectors is accepted although
      its first table would begin behind its end. */
  method MisplacedExample(o: Options) returns (r: Option<Layout>)
    requires !o.align
    ensures r.Some? && r.value.sectors == 10 && !LayoutOk(r.value)
  {
    assert Misplaced(FAT32, 10, 128, o.align);
    r := PlanDrive(FAT32, 10, 512, 128, 512, o);
  }

  // ---------------------------------------------------------------- room in the tables

  /** The bytes that entries 0, ..., n - 1 take; FAT12 packs two entries into three bytes. */
  function EntryRoom(fs: FileSys, n: nat): nat {
    match fs
    case FAT12 => (3 * n + 1) / 2
    case FAT16 => 2 * n
    case FAT32 => 4 * n
  }

  ghost predicate HasRoom(l: Layout, n: nat) {
    EntryRoom(l.fs, n) <= l.fatSectors * l.bps
  }

  lemma LengthHoldsEstimate(fs: FileSys, estimate: nat, bps: nat, spc: nat, align: bool)
    requires SectorSize(bps) && PowerOfTwo(spc)
    ensures FatBytes(fs, estimate) <= FatLength(fs, estimate, bps, spc, align) * bps
    ensures align && FatLength(fs, estimate, bps, spc, align) > 0 ==> FatLength(fs, estimate, bps, spc, align) >= spc
  {
    var n := CeilDiv(FatBytes(fs, estimate), bps);
    CeilDivSectors(FatBytes(fs, estimate), bps);
    AlignedPositive(n, spc);
    MulMono(n, FatLength(fs, estimate, bps, spc, align), bps);
  }

  /** Two tables of at least a cluster each push two clusters out of the estimate. */
  lemma TwoClustersLess(sectors: nat, before: nat, spc: nat, fat: nat)
    requires spc > 0 && fat >= spc && before + fat * 2 <= sectors
    ensures Quotient(sectors - (before + fat * 2), spc) + 2 <= Quotient(sectors - before, spc)
  {
    QuotientMono(sectors - (before + fat * 2), sectors - before - 2 * spc, spc);
  }

  /** In every accepted layout each table has room for as many entries as there are clusters, and for the
      two reserved entries as well if structures are aligned or a table is at least a cluster long. */
  lemma TableRoom(fs: FileSys, sectors: u32, bps: nat, spc: nat, rootCnt: nat, o: Options)
    requires SectorSize(bps) && ClusterChoice(fs, spc) && rootCnt <= 65535
    requires Ideal(fs, sectors, bps, spc, rootCnt, o).Some?
    ensures
      var l := Ideal(fs, sectors, bps, spc, rootCnt, o).value;
      && HasRoom(l, l.clusters)
      && (o.align || l.fatSectors >= spc ==> HasRoom(l, l.clusters + 2))
  {
    var l := Ideal(fs, sectors, bps, spc, rootCnt, o).value;
    PlanParts(fs, sectors, bps, spc, rootCnt, o);
    PartsHaveRoom(l, l.fat1Start + l.rootSectors, o);
  }

  lemma PartsHaveRoom(l: Layout, before: nat, o: Options)
    requires SectorSize(l.bps) && ClusterChoice(l.fs, l.spc)
    requires before + l.fatSectors * 2 == l.dataStart <= l.sectors
    requires l.fatSectors == FatLength(l.fs, Quotient(l.sectors - before, l.spc), l.bps, l.spc, o.align)
    requires l.clusters == Quotient(l.sectors - l.dataStart, l.spc) && CountAccepted(l.fs, l.clusters, o.failWarn)
    ensures HasRoom(l, l.clusters) && (o.align || l.fatSectors >= l.spc ==> HasRoom(l, l.clusters + 2))
  {
    var estimate := Quotient(l.sectors - before, l.spc);
    TableSizeOk(l.fs, l.sectors, before, l.bps, l.spc, o, l.fatSectors, estimate, l.clusters);
    LengthHoldsEstimate(l.fs, estimate, l.bps, l.spc, o.align);
    if l.fatSectors >= l.spc {
      TwoClustersLess(l.sectors, before, l.spc, l.fatSectors);
    }
  }

  /** The largest number of entries that `bytes` bytes hold. */
  function EntriesHeld(fs: FileSys, bytes: nat): nat {
    match fs
    case FAT12 => 2 * bytes / 3
    case FAT16 => bytes / 2
    case FAT32 => bytes / 4
  }

  lemma EntriesHeldExact(fs: FileSys, n: nat, bytes: nat)
    ensures EntryRoom(fs, n) <= bytes <==> n <= EntriesHeld(fs, bytes)
  {
  }

  /** How many of the clusters in `u` sectors are lost when `taken` of the sectors are used up. */
  function ClustersLost(u: nat, taken: nat, spc: nat): nat
    requires spc > 0
  {
    var beside := u - MultipleBelow(u, spc);
    if taken <= beside then 0 else CeilDiv(taken - beside, spc)
  }

  lemma LostExactly(u: nat, taken: nat, spc: nat)
    requires spc > 0 && taken <= u
    ensures ClustersLost(u, taken, spc) <= Quotient(u, spc)
    ensures Quotient(u - taken, spc) == Quotient(u, spc) - ClustersLost(u, taken, spc)
  {
    var q, p := Quotient(u, spc), Quotient(u - taken, spc);
    QuotientBounds(u, spc);
    QuotientBounds(u - taken, spc);
    var beside := u - MultipleBelow(u, spc);
    if taken <= beside {
      SameMultiple(p, q, spc, u - taken, taken);
    } else {
      var d := taken - beside;
      CeilDivBounds(d, spc);
      LostBetween(q, p, CeilDiv(d, spc), spc, d);
    }
  }

  lemma SameMultiple(p: nat, q: nat, m: nat, v: nat, taken: nat)
    requires m > 0 && p * m <= v < p * m + m && q * m <= v && v < q * m + m
    ensures p == q
  {
    QuotientUnique(v, m, p);
    QuotientUnique(v, m, q);
  }

  lemma LostBetween(q: nat, p: nat, k: nat, m: nat, d: nat)
    requires m > 0 && d <= k * m < d + m && d <= q * m && p * m <= q * m - d < p * m + m
    ensures k <= q && p == q - k
  {
    if k > q {
      MulMono(q + 1, k, m);
      MulSplit(q, 1, m);
    }
    MulSplit(q - k, k, m);
    SameMultiple(p, q - k, m, q * m - d, 0);
  }

  /** The entries that the last sectors of a table have to spare for the estimate, plus the clusters that the
      tables themselves take from it, when `before` sectors precede the tables and the data area. */
  function MarginBehind(fs: FileSys, sectors: nat, bps: nat, spc: nat, before: nat, align: bool): int
    requires bps > 0 && spc > 0
  {
    if sectors < before then 0
    else
      var estimate := Quotient(sectors - before, spc);
      var fat := FatLength(fs, estimate, bps, spc, align);
      EntriesHeld(fs, Times(fat, bps)) - estimate + ClustersLost(sectors - before, fat * 2, spc)
  }

  /** The same from the input alone. */
  function RoomMargin(fs: FileSys, sectors: nat, bps: nat, spc: nat, rootCnt: nat, align: bool): int
    requires bps > 0 && spc > 0
  {
    MarginBehind(fs, sectors, bps, spc, FatStart(fs, spc, align) + RootLength(fs, rootCnt, bps, spc, align), align)
  }

  /** Exactly when each table of an accepted layout has an entry for every cluster: the margin makes up for
      the two reserved entries. */
  lemma TableRoomExactly(fs: FileSys, sectors: u32, bps: nat, spc: nat, rootCnt: nat, o: Options)
    requires SectorSize(bps) && ClusterChoice(fs, spc) && rootCnt <= 65535
    requires Ideal(fs, sectors, bps, spc, rootCnt, o).Some?
    ensures
      var l := Ideal(fs, sectors, bps, spc, rootCnt, o).value;
      HasRoom(l, l.clusters + 2) <==> RoomMargin(fs, sectors, bps, spc, rootCnt, o.align) >= 2
  {
    var l := Ideal(fs, sectors, bps, spc, rootCnt, o).value;
    PlanParts(fs, sectors, bps, spc, rootCnt, o);
    FrontParts(fs, sectors, bps, spc, rootCnt, o);
    PartsMargin(l, l.fat1Start + l.rootSectors, o.align);
  }

  lemma FrontParts(fs: FileSys, sectors: nat, bps: nat, spc: nat, rootCnt: nat, o: Options)
    requires bps > 0 && spc > 0 && Ideal(fs, sectors, bps, spc, rootCnt, o).Some?
    ensures
      var l := Ideal(fs, sectors, bps, spc, rootCnt, o).value;
      l.fat1Start == FatStart(fs, spc, o.align) && l.rootSectors == RootLength(fs, rootCnt, bps, spc, o.align)
  {
  }

  lemma PartsMargin(l: Layout, before: nat, align: bool)
    requires l.bps > 0 && l.spc > 0 && before + l.fatSectors * 2 == l.dataStart <= l.sectors
    requires l.fatSectors == FatLength(l.fs, Quotient(l.sectors - before, l.spc), l.bps, l.spc, align)
    requires l.clusters == Quotient(l.sectors - l.dataStart, l.spc)
    ensures HasRoom(l, l.clusters + 2) <==> MarginBehind(l.fs, l.sectors, l.bps, l.spc, before, align) >= 2
  {
    LostExactly(l.sectors - before, l.fatSectors * 2, l.spc);
    EntriesHeldExact(l.fs, l.clusters + 2, Times(l.fatSectors, l.bps));
  }

  /** Room for every cluster is room for whatever the drive uses. */
  lemma RoomForUse(l: Layout, end: nat)
    requires !l.fs.FAT12? && HasRoom(l, l.clusters + 2) && end <= l.clusters + 2
    ensures EntryPos(l.fs, end) <= l.fatSectors * l.bps
  {
  }

  /** The last two entries can be missing: unaligned FAT16 drives with 4352 clusters of 128 sectors have
      17 sectors for each table, which hold exactly 4352 entries. */
  lemma RoomExample(t: nat, o: Options)
    requires 34 <= t < 128 && !o.align
    ensures
      var r := Ideal(FAT16, 33 + 128 * 4352 + t, 512, 128, 512, o);
      r.Some? && r.value.clusters == 4352 && HasRoom(r.value, 4352) && !HasRoom(r.value, 4353)
  {
    var sectors := 33 + 128 * 4352 + t;
    ExampleQuotients(sectors);
    assert CeilDiv(32 * 512, 512) == 32 by {
      CeilDivIsDivision(32 * 512, 512);
    }
    assert CeilDiv(4352 * 2, 512) == 17 by {
      CeilDivIsDivision(4352 * 2, 512);
    }
  }

  lemma ExampleQuotients(sectors: nat)
    requires 67 + 128 * 4352 <= sectors < 33 + 128 * 4353
    ensures Quotient(sectors - 33, 128) == 4352 && Quotient(sectors - 67, 128) == 4352
  {
    QuotientIsDivision(sectors - 33, 128);
    QuotientIsDivision(sectors - 67, 128);
  }

  // ---------------------------------------------------------------- choosing parameters

  const KIB: int := 1024
  const MIB: int := 1024 * 1024
  const GIB: int := 1024 * 1024 * 1024

  /** A row of a cluster size table; a limit of 0 ends the table. */
  datatype Row = Row(limit: nat, size: nat)

  function RangeTable(fs: FileSys): (rows: seq<Row>)
    ensures |rows| > 0 && rows[|rows| - 1].limit == 0
  {
    match fs
    case FAT12 => [Row(15 * MIB, 8 * KIB), Row(0, 4 * KIB)]
    case FAT16 => [Row(16 * MIB, 4 * KIB), Row(128 * MIB, 2 * KIB), Row(256 * MIB, 4 * KIB), Row(512 * MIB, 8 * KIB),
                   Row(GIB, 16 * KIB), Row(2 * GIB, 32 * KIB), Row(4 * GIB, 64 * KIB),
                   Row(8 * GIB, 128 * KIB), Row(0, 256 * KIB)]
    case FAT32 => [Row(260 * MIB, 512), Row(8 * GIB, 4 * KIB), Row(16 * GIB, 8 * KIB), Row(32 * GIB, 16 * KIB),
                   Row(0, 32 * KIB)]
  }

  /** The first row whose limit lies above `size`, or the last. */
  ghost predicate RowFor(rows: seq<Row>, size: nat, i: nat) {
    && i < |rows|
    && (forall j :: 0 <= j < i ==> rows[j].limit != 0 && rows[j].limit <= size)
    && (rows[i].limit == 0 || size < rows[i].limit)
  }

  /** The row's cluster size in sectors, at least one. */
  predicate SpcOfRow(row: Row, bps: nat, spc: nat)
    requires bps > 0
  {
    spc == if row.size <= bps then 1 else row.size / bps
  }

  /** `find_spc`. */
  method FindSpc(rows: seq<Row>, size: nat, bps: nat) returns (spc: nat)
    requires |rows| > 0 && rows[|rows| - 1].limit == 0 && bps > 0
    ensures exists i: nat :: RowFor(rows, size, i) && SpcOfRow(rows[i], bps, spc)
  {
    var n := 0;
    while rows[n].limit != 0 && size >= rows[n].limit
      invariant 0 <= n < |rows|
      invariant forall j :: 0 <= j < n ==> rows[j].limit != 0 && rows[j].limit <= size
      decreases |rows| - n
    {
      n := n + 1;
    }
    assert RowFor(rows, size, n);
    spc := if rows[n].size <= bps then 1 else rows[n].size / bps;
  }

  lemma PowerQuotient(size: nat, bps: nat)
    requires SectorSize(bps)
    requires size == 512 || size == 2048 || size == 4096 || size == 8192 || size == 16384 || size == 32768 ||
             size == 65536 || size == 131072 || size == 262144
    ensures PowerOfTwo(if size <= bps then 1 else size / bps)
    ensures (if size <= bps then 1 else size / bps) <= (if size <= 512 then 1 else size / 512)
  {
  }

  /** The automatic choice is a valid cluster size, and on FAT32 it stays below 16 sectors on drives
      smaller than 8 GiB, so it is never misplaced. */
  lemma AutoChoice(fs: FileSys, size: nat, bps: nat, spc: nat)
    requires SectorSize(bps)
    requires exists i: nat :: RowFor(RangeTable(fs), size, i) && SpcOfRow(RangeTable(fs)[i], bps, spc)
    ensures ClusterChoice(fs, spc)
    ensures fs.FAT32? && spc >= 16 ==> size >= 8 * GIB
  {
    var i: nat :| RowFor(RangeTable(fs), size, i) && SpcOfRow(RangeTable(fs)[i], bps, spc);
    PowerQuotient(RangeTable(fs)[i].size, bps);
    assert i >= 2 ==> RangeTable(fs)[1].limit <= size;
  }

  datatype FsChoice = AutoFs | AutoNo32 | Fixed(fs: FileSys) | UnknownFs

  /** `vcd_driveext`; `None` leaves a value to the library. */
  datatype Wishes = Wishes(rootCnt: Option<int>, bps: Option<int>, spc: Option<int>)

  function FsForSize(choice: FsChoice, size: nat): Option<FileSys> {
    match choice
    case Fixed(fs) => Some(fs)
    case UnknownFs => None
    case _ =>
      if size < 16 * MIB then Some(FAT12)
      else if 260 * MIB <= size < 2048 * GIB && choice.AutoFs? then Some(FAT32)
      else if size < 16 * GIB then Some(FAT16)
      else None
  }

  function FsForClusters(choice: FsChoice, clusters: nat): FileSys {
    match choice
    case Fixed(fs) => fs
    case _ => if clusters < 4085 then FAT12 else if clusters < 65525 || choice.AutoNo32? then FAT16 else FAT32
  }

  predicate ManualSpc(n: int) {
    n == 1 || n == 2 || n == 4 || n == 8 || n == 16 || n == 32 || n == 64 || n == 128
  }

  function RootCntOf(w: Wishes): int {
    if w.rootCnt.Some? then w.rootCnt.value else 512
  }

  function BpsOf(w: Wishes): int {
    if w.bps.Some? then w.bps.value else 512
  }

  /** What a caller may rely on for a drive of `total` sectors. */
  ghost predicate Promise(w: Wishes, o: Options, total: nat, r: Option<Layout>) {
    r.Some? && total < TWO32 && 0 <= RootCntOf(w) <= 65535 ==>
      var l := r.value;
      && l.sectors == total && l.bps == BpsOf(w) && l.spc > 0
      && (LayoutOk(l) <==> !Misplaced(l.fs, total, l.spc, o.align))
      && (w.spc.None? ==> LayoutOk(l))
  }

  lemma AutoNotMisplaced(fs: FileSys, total: nat, bps: nat, spc: nat, align: bool)
    requires SectorSize(bps) && ClusterChoice(fs, spc) && (fs.FAT32? && spc >= 16 ==> total * bps >= 8 * GIB)
    ensures !Misplaced(fs, total, spc, align)
  {
    FatStartBound(fs, spc, align);
    if total < 1000 {
      MulMono(total, 1000, bps);
    }
  }

  /** From here on both branches of `createdrive_ext` are the same. */
  method FinishDrive(fs: FileSys, size: nat, ghost total: nat, bps: nat, spc: nat, w: Wishes,
                     o: Options) returns (r: Option<Layout>)
    requires SectorSize(bps) && ClusterChoice(fs, spc) && bps == BpsOf(w)
    requires total < TWO32 ==> size == total * bps
    requires w.spc.None? && fs.FAT32? && spc >= 16 ==> size >= 8 * GIB
    ensures Promise(w, o, total, r)
    ensures total < TWO32 && 0 <= RootCntOf(w) <= 65535 ==> Outcome(fs, total, bps, spc, RootCntOf(w), o, r)
  {
    var sectors := Wrap32(size / bps);
    r := PlanDrive(fs, sectors, bps, spc, RootCntOf(w), o);
    if total < TWO32 {
      QuotientUnique(size, bps, total);
      Wrap32Id(total);
    }
    if r.Some? && total < TWO32 && 0 <= RootCntOf(w) <= 65535 {
      AcceptedWellFormed(fs, total, bps, spc, RootCntOf(w), o, r);
      if w.spc.None? {
        AutoNotMisplaced(fs, total, bps, spc, o.align);
      }
    }
  }

  /** `size += bps - 1; size &= ~(bps - 1)` in 64 bits. */
  method RoundSize(size: nat, bps: nat) returns (r: nat)
    requires SectorSize(bps)
    ensures CeilDiv(size, bps) < TWO32 ==> r == CeilDiv(size, bps) * bps
  {
    if CeilDiv(size, bps) < TWO32 {
      SizeDoesNotWrap(size, bps);
      RoundedMultiple(size, bps);
    }
    r := Masked(Wrap64(size + bps - 1), bps);
  }

  function Wrap64(x: nat): nat {
    x % 0x1_0000_0000_0000_0000
  }

  lemma SizeDoesNotWrap(size: nat, bps: nat)
    requires SectorSize(bps) && CeilDiv(size, bps) < TWO32
    ensures Wrap64(size + bps - 1) == size + bps - 1
  {
    CeilDivBounds(size, bps);
    MulMono(CeilDiv(size, bps), TWO32, bps);
  }

  lemma RoundedMultiple(size: nat, bps: nat)
    requires bps > 0
    ensures Masked(size + bps - 1, bps) == CeilDiv(size, bps) * bps
  {
    MaskIsMultiple(size + bps - 1, bps);
    QuotientIsDivision(size + bps - 1, bps);
    QuotientBounds(size + bps - 1, bps);
    CeilDivIsDivision(size, bps);
  }

  /** A file system can be selected at all. */
  predicate Selectable(choice: FsChoice, w: Wishes, size: nat) {
    if w.spc.None? then FsForSize(choice, size).Some? else ManualSpc(w.spc.value)
  }

  /** The file system and cluster size that are selected: by the tables for the size of the drive, or the
      wished cluster size and, unless it is fixed, the file system for the number of clusters. */
  ghost predicate Selected(choice: FsChoice, w: Wishes, size: nat, bps: nat, fs: FileSys, spc: nat) {
    && bps > 0 && spc > 0
    && if w.spc.None? then
         && FsForSize(choice, size) == Some(fs)
         && exists i: nat :: RowFor(RangeTable(fs), size, i) && SpcOfRow(RangeTable(fs)[i], bps, spc)
       else
         w.spc.value == spc && fs == FsForClusters(choice, Wrap32(size / Times(bps, spc)))
  }

  /** The outcome is that of planning with the selected parameters. */
  ghost predicate PlannedAs(choice: FsChoice, w: Wishes, o: Options, total: nat, bps: nat, r: Option<Layout>)
    requires bps > 0
  {
    total < TWO32 && 0 <= RootCntOf(w) <= 65535 ==>
      if !Selectable(choice, w, total * bps) then r.None?
      else exists fs, spc: nat ::
           Selected(choice, w, total * bps, bps, fs, spc) && Outcome(fs, total, bps, spc, RootCntOf(w), o, r)
  }

  /** `createdrive_ext` up to the creation of the drive object. An unknown file system together with a
      chosen cluster size is not covered: the code would go on with uninitialised variables. */
  method CreateDriveExt(size: nat, choice: FsChoice, w: Wishes, o: Options) returns (r: Option<Layout>)
    requires choice.UnknownFs? ==> w.spc.None?
    ensures !SectorSizeInt(BpsOf(w)) ==> r.None?
    ensures SectorSizeInt(BpsOf(w)) ==> Promise(w, o, CeilDiv(size, BpsOf(w)), r)
    ensures SectorSizeInt(BpsOf(w)) ==> PlannedAs(choice, w, o, CeilDiv(size, BpsOf(w)), BpsOf(w), r)
  {
    if !SectorSizeInt(BpsOf(w)) {
      return None;
    }
    var bps: nat := BpsOf(w);
    var rounded := RoundSize(size, bps);
    if w.spc.None? {
      r := CreateAutomatic(rounded, CeilDiv(size, bps), bps, choice, w, o);
    } else if ManualSpc(w.spc.value) {
      r := CreateManual(rounded, CeilDiv(size, bps), bps, w.spc.value, choice, w, o);
    } else {
      r := None;
    }
  }

  /** With a cluster size from the tables. */
  method CreateAutomatic(size: nat, ghost total: nat, bps: nat, choice: FsChoice, w: Wishes,
                         o: Options) returns (r: Option<Layout>)
    requires SectorSize(bps) && bps == BpsOf(w) && w.spc.None? && (total < TWO32 ==> size == total * bps)
    ensures Promise(w, o, total, r) && PlannedAs(choice, w, o, total, bps, r)
  {
    var fs := FsForSize(choice, size);
    if fs.None? {
      return None;
    }
    var spc := FindSpc(RangeTable(fs.value), size, bps);
    AutoChoice(fs.value, size, bps, spc);
    r := FinishDrive(fs.value, size, total, bps, spc, w, o);
    assert total < TWO32 ==> Selected(choice, w, total * bps, bps, fs.value, spc);
  }

  /** With a cluster size chosen by the caller. */
  method CreateManual(size: nat, ghost total: nat, bps: nat, spc: nat, choice: FsChoice, w: Wishes,
                      o: Options) returns (r: Option<Layout>)
    requires SectorSize(bps) && bps == BpsOf(w) && w.spc == Some(spc) && ManualSpc(spc)
    requires (total < TWO32 ==> size == total * bps)
    ensures Promise(w, o, total, r) && PlannedAs(choice, w, o, total, bps, r)
  {
    var fs := FsForClusters(choice, Wrap32(size / Times(bps, spc)));
    r := FinishDrive(fs, size, total, bps, spc, w, o);
    assert total < TWO32 ==> Selected(choice, w, total * bps, bps, fs, spc);
  }

  predicate SectorSizeInt(n: int) {
    n >= 0 && SectorSize(n)
  }
}
