/** From a clean drive object to the volume it serves (libvdf/drive.c, libvdf/read.c). */
module Serving {
  import opened Bytes
  import opened Volume
  import opened FileTree
  import opened Directory
  import opened DirReader
  import opened FatReader
  import opened DataReader
  import opened BootRecords
  import opened DriveReader
  import opened ByteReader
  import opened DriveModel

  // ---------------------------------------------------------------- the range table of a laid-out drive

  /** A range of the table describes a file that has been placed. */
  ghost predicate RangeGood(l: Layout, links: seq<Links>, sizes: seq<Size>, exts: seq<Ext>, r: Range)
    requires |links| == |sizes| == |exts|
  {
    && InTable(links, sizes, r.file)
    && r == RangeOf(l, sizes, exts, r.file)
    && sizes[r.file].bytes != 0 && sizes[r.file].clusters > 0
    && exts[r.file].endsect == r.sectend && exts[r.file].end == r.fatend
    && r.sectend == r.sectstart + sizes[r.file].clusters * l.spc
  }

  lemma {:induction false} RangesGood(l: Layout, links: seq<Links>, sizes: seq<Size>, exts: seq<Ext>, all: seq<int>,
                                      k: nat, i: nat)
    requires |links| == |sizes| == |exts| && k <= |all| && Placed(l, sizes, exts, all)
    requires AllSubstantial(links, sizes, all)
    requires i < |RangesOf(l, links, sizes, exts, all, k)|
    ensures RangeGood(l, links, sizes, exts, RangesOf(l, links, sizes, exts, all, k)[i])
  {
    var f := all[k - 1];
    if i < |RangesOf(l, links, sizes, exts, all, k - 1)| {
      RangesGood(l, links, sizes, exts, all, k - 1, i);
    } else {
      assert PlacedIndex(l, sizes, exts, all, k - 1);
      assert Substantial(links, sizes, f);
    }
  }

  // ---------------------------------------------------------------- extents

  function ExtentFor(ps: seq<Payload>, r: Range): Extent {
    Extent(r.fatstart, r.fatend, r.sectstart, r.sectend, if 0 <= r.file < |ps| then ps[r.file] else FileData(0, []))
  }

  function ExtentsFor(ps: seq<Payload>, rs: seq<Range>): (xs: seq<Extent>)
    ensures |xs| == |rs|
  {
    seq(|rs|, i requires 0 <= i < |rs| => ExtentFor(ps, rs[i]))
  }

  lemma ExtentsTiled(l: Layout, ps: seq<Payload>, rs: seq<Range>, end: nat)
    requires RangesTiled(l, rs, end)
    ensures Tiled(l, ExtentsFor(ps, rs)) && ClusterEnd(ExtentsFor(ps, rs)) == end
    ensures SectorEnd(l, ExtentsFor(ps, rs)) == l.dataStart + (end - 2) * l.spc
  {
    var xs := ExtentsFor(ps, rs);
    forall i | 0 <= i < |xs|
      ensures ExtentOk(l, xs[i])
    {
      assert RangeOk(l, rs[i]);
    }
    forall i {:trigger Chained(xs, i)} | 0 <= i && i + 1 < |xs|
      ensures Chained(xs, i)
    {
      assert RangeChained(rs, i);
    }
    if |rs| > 0 {
      assert RangeOk(l, rs[|rs| - 1]);
    }
  }

  function PayloadsFor(k: Disk): (ps: seq<Payload>)
    requires DiskShape(k)
    ensures |ps| == |k.sizes|
  {
    seq(|k.sizes|, f requires 0 <= f < |k.sizes| => PayloadOf(k, f))
  }

  lemma PayloadsForOk(k: Disk)
    requires DiskShape(k)
    ensures Payloads(k, PayloadsFor(k))
  {
    forall f {:trigger PayloadAt(k, PayloadsFor(k), f)} | 0 <= f < |k.sizes|
      ensures PayloadAt(k, PayloadsFor(k), f)
    {
    }
  }

  /** The ends of the files in a table. */
  function EndsOf(table: seq<Range>): seq<nat> {
    seq(|table|, i requires 0 <= i < |table| => table[i].fatend)
  }

  /** Why files must not wrap: a virtual file of 2^32 - 1 bytes between two others gets no clusters but an entry of
      the table, and in a read of both neighbours the second is cut behind its first cluster. */
  lemma WrappedFileCuts(l: Layout, links: seq<Links>, sizes: seq<Size>, exts: seq<Ext>, all: seq<int>, bpc: nat)
    requires |links| == |sizes| == |exts| && Placed(l, sizes, exts, all) && |all| == 3 && 1 < bpc < TWO32
    requires forall i :: 0 <= i < 3 ==> 0 <= all[i] < |links| && !links[all[i]].isDir && sizes[all[i]].bytes != 0
    requires sizes[all[1]] == Size(TWO32 - 1, RoundedClusters(TWO32 - 1, bpc))
    requires sizes[all[0]].clusters > 0 && sizes[all[2]].clusters > 1 && !l.fs.FAT12?
    ensures
      var ends := EndsOf(RangesOf(l, links, sizes, exts, all, 3));
      var table := Walk(l.fs, ends, 0, 2, sizes[all[0]].clusters + sizes[all[2]].clusters);
      && 2 <= exts[all[2]].start < exts[all[2]].end - 1
      && exts[all[2]].start - 2 < |table| && table[exts[all[2]].start - 2] == EndMark(l.fs)
  {
    var a, b := sizes[all[0]].clusters, sizes[all[2]].clusters;
    RoundedExactly(TWO32 - 1, bpc);
    assert PlacedIndex(l, sizes, exts, all, 0) && PlacedIndex(l, sizes, exts, all, 1);
    assert PlacedIndex(l, sizes, exts, all, 2);
    assert Used(sizes, all, 1) == Used(sizes, all, 0) + a && Used(sizes, all, 2) == Used(sizes, all, 1);
    assert RangesOf(l, links, sizes, exts, all, 1) == [RangeOf(l, sizes, exts, all[0])];
    assert RangesOf(l, links, sizes, exts, all, 2) ==
           RangesOf(l, links, sizes, exts, all, 1) + [RangeOf(l, sizes, exts, all[1])];
    assert EndsOf(RangesOf(l, links, sizes, exts, all, 3)) == [2 + a, 2 + a, 2 + a + b];
    EmptyRangeCuts(l.fs, a, b);
  }

  /** A placed range has room for all bytes of its file. */
  lemma RoomForFile(l: Layout, bytes: nat, clusters: nat)
    requires LayoutOk(l) && clusters == CeilDiv(bytes, BytesPerCluster(l))
    ensures bytes <= (clusters * l.spc) * l.bps
  {
    CeilDivBounds(bytes, BytesPerCluster(l));
    calc {
      clusters * BytesPerCluster(l);
      clusters * (l.bps * l.spc);
      (clusters * l.spc) * l.bps;
    }
  }

  // ---------------------------------------------------------------- a drive that can be served

  /** The caller can check each of these before serving a drive.
      - The clusters of each file hold its size; only rounding the size of a virtual file up can wrap 32 bits.
      - A FAT32 root is not empty, because the range table has no room for it then. */
  ghost predicate Wellfilled(d: Served, all: seq<int>) {
    && DiskShape(d.k) && LayoutOk(d.k.l) && !d.k.l.fs.FAT12? && |d.fents| == |d.k.sizes| > 0 && d.k.t.bpc > 0
    && ListOk(all, |d.k.sizes|, d.k.l.fs.FAT32?) && |all| <= d.fileCnt
    && (d.k.l.fs.FAT32? ==> d.k.sizes[ROOT].bytes != 0)
    && (forall f :: 0 <= f < |d.k.sizes| && !d.k.t.links[f].isDir ==>
                      d.k.sizes[f].clusters == CeilDiv(d.k.sizes[f].bytes, d.k.t.bpc))
  }

  ghost function TablesOf(d: Served, nonempty: nat): Tables {
    Tables(d.fents, d.k.sizes, d.k.exts, d.ranges, d.dataEnd, d.dataClusterEnd, nonempty)
  }

  /** What a valid and clean drive provides. */
  ghost predicate CleanState(d: Served, repr: seq<set<int>>, all: seq<int>, nonempty: nat) {
    && DiskShape(d.k) && LayoutOk(d.k.l) && d.k.t.bpc == BytesPerCluster(d.k.l)
    && TreeOk(d.k.t.links, repr)
    && FilesSized(d.k.t.links, d.k.sizes, d.k.t.bpc) && Named(d.k.t.attrs) && Unplaced(all, d.k.exts)
    && Laid(d.k.l, d.k.t, repr, all, TablesOf(d, nonempty))
  }

  ghost predicate SizesExact(k: Disk) {
    && k.t.bpc > 0
    && forall f :: 0 <= f < |k.sizes| ==> k.sizes[f].clusters == CeilDiv(k.sizes[f].bytes, k.t.bpc)
  }

  lemma SizesAreExact(d: Served, repr: seq<set<int>>, all: seq<int>, nonempty: nat)
    requires CleanState(d, repr, all, nonempty) && Wellfilled(d, all)
    ensures SizesExact(d.k)
  {
    forall f | 0 <= f < |d.k.sizes|
      ensures d.k.sizes[f].clusters == CeilDiv(d.k.sizes[f].bytes, d.k.t.bpc)
    {
      if d.k.t.links[f].isDir {
        assert f in repr[ROOT];
        assert NumberedAt(d.k.t, d.fents, d.k.sizes, f);
      }
    }
  }

  lemma FilledIsSubstantial(d: Served, repr: seq<set<int>>, all: seq<int>, nonempty: nat)
    requires CleanState(d, repr, all, nonempty) && Wellfilled(d, all) && SizesExact(d.k)
    ensures AllSubstantial(d.k.t.links, d.k.sizes, all)
  {
    forall i {:trigger Substantial(d.k.t.links, d.k.sizes, all[i])} | 0 <= i < |all|
      ensures Substantial(d.k.t.links, d.k.sizes, all[i])
    {
      var f := all[i];
      assert f in all;
      if d.k.t.links[f].isDir {
        assert f in repr[ROOT];
        assert NumberedAt(d.k.t, d.fents, d.k.sizes, f);
        assert f != ROOT ==> ParentOk(d.k.t.links, f);
      }
    }
  }

  lemma {:induction false} TableNoLonger(l: Layout, links: seq<Links>, sizes: seq<Size>, exts: seq<Ext>, all: seq<int>,
                                         k: nat)
    requires |links| == |sizes| == |exts| && k <= |all|
    ensures |RangesOf(l, links, sizes, exts, all, k)| <= k
  {
    if k > 0 {
      TableNoLonger(l, links, sizes, exts, all, k - 1);
    }
  }

  /** The range table of a well-filled clean drive. */
  ghost predicate TableGood(d: Served) {
    && DiskShape(d.k)
    && |d.ranges| <= d.fileCnt
    && d.dataClusterEnd >= 2
    && RangesTiled(d.k.l, d.ranges, d.dataClusterEnd)
    && d.dataEnd == d.k.l.dataStart + (d.dataClusterEnd - 2) * d.k.l.spc
    && forall i {:trigger d.ranges[i]} :: 0 <= i < |d.ranges| ==>
         RangeGood(d.k.l, d.k.t.links, d.k.sizes, d.k.exts, d.ranges[i])
  }

  lemma TableIsGood(d: Served, repr: seq<set<int>>, all: seq<int>, nonempty: nat)
    requires CleanState(d, repr, all, nonempty) && Wellfilled(d, all)
    ensures TableGood(d)
  {
    var k := d.k;
    SizesAreExact(d, repr, all, nonempty);
    FilledIsSubstantial(d, repr, all, nonempty);
    RangesTile(k.l, k.t.links, k.sizes, k.exts, all, |all|);
    TableNoLonger(k.l, k.t.links, k.sizes, k.exts, all, |all|);
    forall i {:trigger d.ranges[i]} | 0 <= i < |d.ranges|
      ensures RangeGood(k.l, k.t.links, k.sizes, k.exts, d.ranges[i])
    {
      RangesGood(k.l, k.t.links, k.sizes, k.exts, all, |all|, i);
    }
  }

  lemma DirsReady(d: Served, repr: seq<set<int>>, all: seq<int>, nonempty: nat)
    requires CleanState(d, repr, all, nonempty) && Wellfilled(d, all)
    ensures ReadyDirs(d.k, d.fents)
  {
    var k := d.k;
    forall x {:trigger DirNumbered(k, d.fents, x)} | 0 <= x < |k.sizes| && k.t.links[x].isDir
      ensures DirNumbered(k, d.fents, x)
    {
      OneDirReady(d, repr, all, nonempty, x);
    }
    forall x {:trigger k.t.links[x]} | 0 <= x < |k.sizes| && x != ROOT
      ensures k.t.links[x].parent != NONE
    {
      assert ParentOk(k.t.links, x);
    }
  }

  lemma OneDirReady(d: Served, repr: seq<set<int>>, all: seq<int>, nonempty: nat, x: int)
    requires CleanState(d, repr, all, nonempty) && Wellfilled(d, all) && 0 <= x < |d.k.sizes| && d.k.t.links[x].isDir
    ensures DirNumbered(d.k, d.fents, x)
  {
    var k := d.k;
    assert SectorSize(k.l.bps);
    assert x in repr[ROOT];
    assert NumberedAt(k.t, d.fents, k.sizes, x);
    assert x != ROOT ==> ParentOk(k.t.links, x);
    assert NodeOk(k.t.links, repr, x);
    var es := k.t.links[x].entries;
    forall j | 0 <= j < |es|
      ensures 0 <= es[j] < |d.fents|
    {
      assert EntryOk(k.t.links, repr, x, es[j]);
    }
  }

  ghost function VolumeFor(d: Served): (v: Volume)
    requires DiskShape(d.k) && |d.k.sizes| > 0 && !d.k.l.fs.FAT12?
    ensures v.l == d.k.l && TableOk(v)
    ensures v.xs == ExtentsFor(PayloadsFor(d.k), d.ranges)
    ensures v.root == DirBlocks(d.k, ROOT)
    ensures v.boot == BootRecord(d.k.l, d.serial, d.title, d.k.exts[ROOT].start) && v.mbr == MbrRecord(d.k.l, d.serial)
  {
    var xs := ExtentsFor(PayloadsFor(d.k), d.ranges);
    var table := seq(d.k.l.fatSectors * d.k.l.bps, j requires 0 <= j => FatByte(d.k.l.fs, xs, j));
    Volume(d.k.l, xs, table, DirBlocks(d.k, ROOT), BootRecord(d.k.l, d.serial, d.title, d.k.exts[ROOT].start),
           MbrRecord(d.k.l, d.serial))
  }

  lemma IndexIsOk(d: Served, ps: seq<Payload>)
    requires TableGood(d)
    ensures IndexOk(d.k.l, d.ranges, d.k.exts, ExtentsFor(ps, d.ranges))
  {
    var xs := ExtentsFor(ps, d.ranges);
    ExtentsTiled(d.k.l, ps, d.ranges, d.dataClusterEnd);
    forall i {:trigger xs[i]} | 0 <= i < |xs|
      ensures IndexedAt(d.ranges[i], d.k.exts, xs[i])
    {
      assert RangeGood(d.k.l, d.k.t.links, d.k.sizes, d.k.exts, d.ranges[i]);
    }
  }

  lemma DataIsOk(d: Served, ps: seq<Payload>)
    requires TableGood(d) && SizesExact(d.k) && LayoutOk(d.k.l) && d.k.t.bpc == BytesPerCluster(d.k.l)
    requires Payloads(d.k, ps) && ReadyDirs(d.k, d.fents)
    ensures DataOk(d.k, ps, d.fents, d.ranges, ExtentsFor(ps, d.ranges))
  {
    var k, xs := d.k, ExtentsFor(ps, d.ranges);
    IndexIsOk(d, ps);
    forall i {:trigger CarriedAt(k, ps, d.ranges, xs, i)} | 0 <= i < |xs|
      ensures CarriedAt(k, ps, d.ranges, xs, i)
    {
      var r := d.ranges[i];
      assert RangeGood(k.l, k.t.links, k.sizes, k.exts, r);
      RoomForFile(k.l, k.sizes[r.file].bytes, k.sizes[r.file].clusters);
      MulMono(0, k.sizes[r.file].clusters, k.l.spc);
    }
  }

  lemma AllReady(d: Served, v: Volume, ps: seq<Payload>)
    requires TableGood(d) && Payloads(d.k, ps) && ReadyDirs(d.k, d.fents)
    requires DataOk(d.k, ps, d.fents, d.ranges, v.xs) && d.dataEnd == SectorEnd(v.l, v.xs)
    requires d.dataClusterEnd == ClusterEnd(v.xs)
    requires v.l == d.k.l && !v.l.fs.FAT12? && TableOk(v) && |d.k.exts| > 0
    requires v.boot == BootRecord(v.l, d.serial, d.title, d.k.exts[ROOT].start) && v.mbr == MbrRecord(v.l, d.serial)
    requires |ps| > 0 && d.k.t.links[ROOT].isDir && ps[ROOT] == DirData(v.root)
    ensures forall r: Region :: Ready(r, d, v, ps)
  {
    forall r: Region
      ensures Ready(r, d, v, ps)
    {
      match r {
        case ReservedRegion =>
        case FatRegion =>
        case RootRegion =>
        case DataRegion =>
      }
    }
  }

  /** What serving needs of the fields of a drive. */
  ghost predicate Prepared(d: Served) {
    && TableGood(d) && SizesExact(d.k) && ReadyDirs(d.k, d.fents)
    && LayoutOk(d.k.l) && !d.k.l.fs.FAT12? && d.k.t.bpc == BytesPerCluster(d.k.l)
    && |d.k.sizes| > 0 && d.k.t.links[ROOT].isDir
  }

  lemma CleanIsPrepared(d: Served, repr: seq<set<int>>, all: seq<int>, nonempty: nat)
    requires CleanState(d, repr, all, nonempty) && Wellfilled(d, all)
    ensures Prepared(d)
  {
    SizesAreExact(d, repr, all, nonempty);
    TableIsGood(d, repr, all, nonempty);
    DirsReady(d, repr, all, nonempty);
  }

  lemma PreparedServes(d: Served, v: Volume, ps: seq<Payload>)
    requires Prepared(d) && v == VolumeFor(d) && ps == PayloadsFor(d.k)
    ensures Serves(d, v, ps)
  {
    PayloadsForOk(d.k);
    assert PayloadAt(d.k, ps, ROOT);
    DataIsOk(d, ps);
    ExtentsTiled(d.k.l, ps, d.ranges, d.dataClusterEnd);
    AllReady(d, v, ps);
  }

  /** A clean, well-filled drive serves the volume of its tree. */
  lemma CleanDriveServes(d: Served, repr: seq<set<int>>, all: seq<int>, nonempty: nat)
    requires CleanState(d, repr, all, nonempty) && Wellfilled(d, all)
    ensures Serves(d, VolumeFor(d), PayloadsFor(d.k))
  {
    CleanIsPrepared(d, repr, all, nonempty);
    PreparedServes(d, VolumeFor(d), PayloadsFor(d.k));
  }

  // ---------------------------------------------------------------- reading a drive object

  function DiskOf(drv: Drive): Disk
    reads drv
  {
    Disk(drv.layout, drv.T(), drv.sizes, drv.exts)
  }

  function ServedOf(drv: Drive): Served
    reads drv
  {
    Served(DiskOf(drv), drv.fents, drv.ranges, drv.fileCnt, drv.dataEnd, drv.dataClusterEnd, drv.serial, drv.title)
  }

  /** The drive is clean, as it always is while locked, and can be read. */
  ghost predicate Servable(drv: Drive)
    reads drv
  {
    drv.Valid() && !drv.dirty && Wellfilled(ServedOf(drv), drv.all)
  }

  ghost function VolumeOf(drv: Drive): (v: Volume)
    reads drv
    requires Servable(drv)
    ensures v.l == drv.layout && v.l.bps > 0
  {
    VolumeFor(ServedOf(drv))
  }

  lemma DriveServes(drv: Drive)
    requires Servable(drv)
    ensures Serves(ServedOf(drv), VolumeOf(drv), PayloadsFor(DiskOf(drv)))
  {
    CleanDriveServes(ServedOf(drv), drv.repr, drv.all, drv.nonemptyCnt);
  }

  /** The request for these sectors does not lead `fat_next_file` behind the range table. */
  ghost predicate Allowed(drv: Drive, from: nat, to: nat)
    reads drv
    requires Servable(drv)
  {
    Askable(ServedOf(drv), VolumeOf(drv), from, to)
  }

  /** How a read of these sectors ends. */
  ghost function Outcome(drv: Drive, from: nat, to: nat): (s: Status)
    reads drv
    requires Servable(drv)
    ensures s.Overrun? <==> !Allowed(drv, from, to)
    ensures s.Complete? <==> Allowed(drv, from, to) && AllReadable(ServedOf(drv), VolumeOf(drv), from, to)
  {
    Expected(ServedOf(drv), VolumeOf(drv), from, to)
  }

  /** A read may start at this sector: not inside a labelled root directory of more than one sector. */
  ghost predicate Startable(drv: Drive, sector: nat)
    reads drv
    requires Servable(drv)
  {
    Begins(ServedOf(drv), VolumeOf(drv), sector)
  }

  /** Unless a root directory of more than one sector has a label, a read may start anywhere. */
  lemma StartAnywhere(drv: Drive, sector: nat)
    requires Servable(drv) && (drv.title.Unlabelled? || drv.fents[ROOT].total <= drv.layout.bps / 32)
    ensures Startable(drv, sector)
  {
    assert drv.links[ROOT].parent == NONE;
  }

  /** Without empty files every request is allowed. */
  lemma AllowedWithoutEmpty(drv: Drive, from: nat, to: nat)
    requires Servable(drv) && drv.fileCnt == |drv.all|
    requires forall i :: 0 <= i < |drv.all| ==> drv.sizes[drv.all[i]].bytes != 0
    ensures Allowed(drv, from, to)
  {
    var d := ServedOf(drv);
    SizesAreExact(d, drv.repr, drv.all, drv.nonemptyCnt);
    FilledIsSubstantial(d, drv.repr, drv.all, drv.nonemptyCnt);
    EveryFileInTable(d.k.l, drv.links, drv.sizes, drv.exts, drv.all, |drv.all|);
  }

  lemma {:induction false} EveryFileInTable(l: Layout, links: seq<Links>, sizes: seq<Size>, exts: seq<Ext>,
                                            all: seq<int>, k: nat)
    requires |links| == |sizes| == |exts| && k <= |all|
    requires forall i :: 0 <= i < |all| ==> 0 <= all[i] < |sizes| && sizes[all[i]].bytes != 0
    ensures |RangesOf(l, links, sizes, exts, all, k)| == k
  {
    if k > 0 {
      EveryFileInTable(l, links, sizes, exts, all, k - 1);
    }
  }

  /** The number of requested sectors that exist, unless one of them cannot be read. */
  ghost function SectorsOutcome(drv: Drive, sector: nat, cnt: nat): int
    reads drv
    requires Servable(drv) && sector <= TotalSectors(drv.layout)
  {
    var n := Yield(drv.layout, sector, cnt);
    Returned(Outcome(drv, sector, sector + n), n)
  }

  /** `vdf_read_sectors` on a clean drive: the requested sectors of the image, as many as there are. */
  method VdfReadSectors(drv: Drive, sector: nat, cnt: nat, buffer: array<byte>) returns (r: int)
    requires Servable(drv) && sector <= TotalSectors(drv.layout) && Times(cnt, drv.layout.bps) <= buffer.Length
    requires cnt < 0x8000_0000 && (cnt > 0 ==> Startable(drv, sector))
    modifies buffer
    ensures r == SectorsOutcome(drv, sector, cnt)
    ensures r >= 0 ==> Filled(buffer, 0, drv.layout, Image(VolumeOf(drv)), sector, r)
    ensures forall b :: Times(cnt, drv.layout.bps) <= b < buffer.Length ==> buffer[b] == old(buffer[b])
  {
    ghost var v, ps := VolumeOf(drv), PayloadsFor(DiskOf(drv));
    DriveServes(drv);
    r := ReadSectors(ServedOf(drv), v, ps, Image(v), sector, cnt, buffer, 0);
  }

  /** The calls that a request for bytes is made of may start where they do. */
  ghost predicate BytesStartable(drv: Drive, off: nat, cnt: nat)
    reads drv
    requires Servable(drv)
  {
    RequestBegins(ServedOf(drv), VolumeOf(drv), off, cnt)
  }

  /** `vdf_read_bytes` on a clean drive: exactly the requested bytes of the image, whatever the alignment. */
  method VdfReadBytes(drv: Drive, off: nat, cnt: nat, buffer: array<byte>) returns (r: int)
    requires Servable(drv) && off <= ImageBytes(drv.layout) && cnt <= buffer.Length && BytesStartable(drv, off, cnt)
    modifies buffer
    ensures r == DriveOutcome(drv, off, cnt)
    ensures r >= 0 ==> ShowsImage(buffer, 0, Image(VolumeOf(drv)), off, r)
    ensures forall b :: cnt <= b < buffer.Length ==> buffer[b] == old(buffer[b])
  {
    ghost var v, ps := VolumeOf(drv), PayloadsFor(DiskOf(drv));
    DriveServes(drv);
    r := ReadBytes(ServedOf(drv), v, ps, Image(v), off, cnt, buffer);
  }

  /** The number of requested bytes that exist, unless a sector they touch cannot be read. */
  ghost function DriveOutcome(drv: Drive, off: nat, cnt: nat): int
    reads drv
    requires Servable(drv) && off <= ImageBytes(drv.layout)
  {
    RequestOutcome(ServedOf(drv), VolumeOf(drv), off, cnt)
  }

  // ---------------------------------------------------------------- reading while locked

  /** Any operations on a drive that stays locked leave the volume as it is, apart from the serial number in the
      boot records. */
  method RunWhileServing(drv: Drive, ops: seq<Op>) returns (done: nat, held: bool)
    requires Servable(drv)
    modifies drv
    ensures done <= |ops| && held == (Locks(old(drv.lockcnt), ops, done) > 0)
    ensures held ==> Servable(drv) && SameButRecords(old(VolumeOf(drv)), VolumeOf(drv))
    ensures held && drv.serial == old(drv.serial) ==> VolumeOf(drv) == old(VolumeOf(drv))
  {
    ghost var was := ServedOf(drv);
    ghost var views;
    done, held, views := drv.Run(ops);
    if held {
      assert ServedOf(drv) == was.(serial := drv.serial);
    }
  }

  /** The same volume but for the two records. */
  ghost predicate SameButRecords(v: Volume, w: Volume) {
    w == v.(boot := w.boot, mbr := w.mbr)
  }

  lemma PartApartFromRecords(v: Volume, w: Volume, o: nat)
    requires SameButRecords(v, w) && Regions(v.l) && !v.l.fs.FAT12? && v.l.fat1Start * v.l.bps <= o
    ensures PartCell(w, o) == PartCell(v, o)
  {
  }

  /** Such volumes have the same bytes outside the reserved sectors; `m` is where the partition begins. */
  lemma ImageApartFromRecords(v: Volume, w: Volume, m: nat, o: nat)
    requires SameButRecords(v, w) && Regions(v.l) && !v.l.fs.FAT12? && m == v.l.mbrSectors * v.l.bps
    requires m + v.l.fat1Start * v.l.bps <= o < ImageBytes(v.l)
    ensures Image(w)[o] == Image(v)[o]
  {
    var k := o - m;
    PartApartFromRecords(v, w, k);
    PartInImage(v, Image(v), m, k);
    PartInImage(w, Image(w), m, k);
  }
}
