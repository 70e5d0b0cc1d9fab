/** End to end: a host that reads the raw device finds every file of the drive's tree, at every depth,
    under its name and with its contents. */
module Recovery {
  import opened Bytes
  import opened Volume
  import opened FileTree
  import opened Directory
  import opened DirReader
  import opened FatReader
  import opened DataReader
  import opened DriveReader
  import opened ByteReader
  import opened DriveModel
  import opened Serving
  import opened HostReader
  import opened HostDirs
  import opened HostScan
  import Geometry

  // ---------------------------------------------------------------- what the drive provides

  /** A well-filled clean drive whose table has an entry for every cluster in use. */
  ghost predicate Complete(d: Served, all: seq<int>) {
    && Wellfilled(d, all)
    && EntryPos(d.k.l.fs, d.dataClusterEnd) <= d.k.l.fatSectors * d.k.l.bps
  }

  /** The allocation never exceeds the clusters of the layout. */
  lemma UsedFits(l: Layout, used: nat)
    requires LayoutOk(l) && (l.dataStart + used * l.spc < l.sectors || used == 0)
    ensures used <= l.clusters
  {
    if used > l.clusters {
      MulMono(l.clusters + 1, used, l.spc);
    }
  }

  /** The allocation of a clean drive without empty allocations: its ranges tile clusters 2 up to the end
      and sectors from the start of the data area on, in list order, and stay within the layout. */
  lemma CleanAllocation(drv: Drive)
    requires drv.Valid() && !drv.dirty && AllSubstantial(drv.links, drv.sizes, drv.all)
    ensures RangesTiled(drv.layout, drv.ranges, drv.dataClusterEnd)
    ensures drv.dataEnd == drv.layout.dataStart + (drv.dataClusterEnd - 2) * drv.layout.spc
    ensures 0 <= drv.dataClusterEnd - 2 <= drv.layout.clusters
    ensures |drv.ranges| == drv.nonemptyCnt
  {
    RangesTile(drv.layout, drv.links, drv.sizes, drv.exts, drv.all, |drv.all|);
    UsedFits(drv.layout, Used(drv.sizes, drv.all, |drv.all|));
    TableSize(drv.layout, drv.links, drv.sizes, drv.exts, drv.all, |drv.all|);
    NoEmptyDirs(drv.links, drv.sizes, drv.all, |drv.all|);
  }

  lemma VolumeSound(d: Served, repr: seq<set<int>>, all: seq<int>, nonempty: nat)
    requires CleanState(d, repr, all, nonempty) && Complete(d, all)
    ensures Sound(VolumeFor(d)) && ClusterEnd(VolumeFor(d).xs) == d.dataClusterEnd
  {
    TableIsGood(d, repr, all, nonempty);
    ExtentsTiled(d.k.l, PayloadsFor(d.k), d.ranges, d.dataClusterEnd);
    UsedFits(d.k.l, Used(d.k.sizes, all, |all|));
  }

  /** Extent `i` of the volume belongs to file `f`. */
  ghost predicate Owns(d: Served, v: Volume, ps: seq<Payload>, f: int, i: int) {
    && 0 <= i < |v.xs| && 0 <= f < |d.k.sizes| == |d.k.exts| && f < |ps|
    && v.xs[i].start == d.k.exts[f].start && v.xs[i].start < v.xs[i].end
    && v.xs[i].payload == ps[f]
    && v.xs[i].startsect <= v.xs[i].endsect && d.k.sizes[f].bytes <= (v.xs[i].endsect - v.xs[i].startsect) * d.k.l.bps
  }

  /** The number of a file's entry in the range table. */
  function EntryNumber(links: seq<Links>, sizes: seq<Size>, all: seq<int>, i: nat): nat
    requires i <= |all|
  {
    if i == 0 then 0 else EntryNumber(links, sizes, all, i - 1) + if InTable(links, sizes, all[i - 1]) then 1 else 0
  }

  lemma {:induction false} TableOrder(l: Layout, links: seq<Links>, sizes: seq<Size>, exts: seq<Ext>, all: seq<int>,
                                      k: nat, i: nat)
    requires |links| == |sizes| == |exts| && i < k <= |all| && InTable(links, sizes, all[i])
    ensures EntryNumber(links, sizes, all, i) < |RangesOf(l, links, sizes, exts, all, k)|
    ensures RangesOf(l, links, sizes, exts, all, k)[EntryNumber(links, sizes, all, i)].file == all[i]
  {
    TableLength(l, links, sizes, exts, all, k - 1);
    if i < k - 1 {
      TableOrder(l, links, sizes, exts, all, k - 1, i);
    }
  }

  lemma {:induction false} TableLength(l: Layout, links: seq<Links>, sizes: seq<Size>, exts: seq<Ext>, all: seq<int>,
                                       k: nat)
    requires |links| == |sizes| == |exts| && k <= |all|
    ensures |RangesOf(l, links, sizes, exts, all, k)| == EntryNumber(links, sizes, all, k)
  {
    if k > 0 {
      TableLength(l, links, sizes, exts, all, k - 1);
    }
  }

  lemma EntryFile(d: Served, repr: seq<set<int>>, all: seq<int>, nonempty: nat, i: nat)
    requires CleanState(d, repr, all, nonempty) && Wellfilled(d, all) && i < |all|
    requires InTable(d.k.t.links, d.k.sizes, all[i])
    ensures
      var n := EntryNumber(d.k.t.links, d.k.sizes, all, i);
      n < |d.ranges| && d.ranges[n].file == all[i]
  {
    var k := d.k;
    SizesAreExact(d, repr, all, nonempty);
    FilledIsSubstantial(d, repr, all, nonempty);
    TableOrder(k.l, k.t.links, k.sizes, k.exts, all, |all|, i);
  }

  /** Every listed file that is not empty has its own extent. */
  lemma OwnerFound(d: Served, repr: seq<set<int>>, all: seq<int>, nonempty: nat, i: nat)
    requires CleanState(d, repr, all, nonempty) && Wellfilled(d, all) && i < |all|
    requires InTable(d.k.t.links, d.k.sizes, all[i])
    ensures Owns(d, VolumeFor(d), PayloadsFor(d.k), all[i], EntryNumber(d.k.t.links, d.k.sizes, all, i))
  {
    EntryFile(d, repr, all, nonempty, i);
    CleanIsPrepared(d, repr, all, nonempty);
    PayloadsForOk(d.k);
    DataIsOk(d, PayloadsFor(d.k));
    OwnerIs(d, VolumeFor(d), PayloadsFor(d.k), all[i], EntryNumber(d.k.t.links, d.k.sizes, all, i));
  }

  lemma OwnerIs(d: Served, v: Volume, ps: seq<Payload>, f: int, i: nat)
    requires DataOk(d.k, ps, d.fents, d.ranges, v.xs) && i < |d.ranges| && d.ranges[i].file == f && v.l == d.k.l
    ensures Owns(d, v, ps, f, i)
  {
    assert CarriedAt(d.k, ps, d.ranges, v.xs, i);
    assert IndexedAt(d.ranges[i], d.k.exts, v.xs[i]);
    assert ExtentOk(v.l, v.xs[i]);
  }

  // ---------------------------------------------------------------- one file, one directory

  /** The chain from a file's start cluster shows all of its payload. */
  lemma PayloadFound(d: Served, v: Volume, ps: seq<Payload>, raw: seq<byte>, f: int, i: nat)
    requires v.l == d.k.l && Dump(v, raw) && Sound(v) && Owns(d, v, ps, f, i)
    ensures d.k.sizes[f].bytes <= |ChainBytes(raw, v.l, d.k.exts[f].start)|
    ensures ShownBy(ps[f], ChainBytes(raw, v.l, d.k.exts[f].start))
    ensures 2 <= d.k.exts[f].start < v.l.clusters + 2
  {
    ChainShown(v, raw, i);
    assert ExtentOk(v.l, v.xs[i]);
    LastEnd(v.l, v.xs, i);
  }

  // ---------------------------------------------------------------- every file

  /** Slot `q` is the short slot of an entry of directory `p` that belongs to `f`. */
  ghost predicate IsEntrySlot(k: Disk, p: int, f: int, q: nat)
    requires DiskShape(k) && 0 <= p < |k.sizes|
  {
    exists j: nat :: j < |k.t.links[p].entries| && k.t.links[p].entries[j] == f && q == ShortAt(k, p, j)
  }

  /** Following the slots `qs` from the root leads, directory by directory, to file `f`: each slot is the one
      of the next file on the way in the directory reached so far, and shows its names, start cluster and size;
      its chain holds the whole directory or exactly the contents. */
  ghost predicate Located(k: Disk, raw: seq<byte>, f: int, qs: seq<nat>)
    decreases |qs|
  {
    && DiskShape(k) && 0 <= f < |k.sizes|
    && if qs == [] then f == ROOT && DirSeen(k, RootBytes(raw, k.l), ROOT)
       else
         var p, before, q := k.t.links[f].parent, qs[..|qs| - 1], qs[|qs| - 1];
         var dir := DirBytesAt(raw, k.l, before);
         && 0 <= p < |k.sizes| && k.t.links[p].isDir && Located(k, raw, p, before) && IsEntrySlot(k, p, f, q)
         && SlotInside(dir, q) && EntryFound(k, dir, q, f) && LongFound(k, dir, q, f)
         && if k.t.links[f].isDir then DirFound(k, DirBytesAt(raw, k.l, qs), f)
            else FileBytes(raw, k.l, dir, q) == Exactly(k.t.attrs[f].content, k.sizes[f].bytes)
  }

  /** Everything the host's reading relies on. */
  ghost predicate OnDisk(d: Served, v: Volume, ps: seq<Payload>, raw: seq<byte>) {
    && v.l == d.k.l && Dump(v, raw) && Sound(v) && Payloads(d.k, ps) && ReadyDirs(d.k, d.fents)
    && |ps| > 0 && d.k.t.links[ROOT].isDir && ps[ROOT] == DirData(v.root)
    && (v.l.fs.FAT32? ==> d.k.exts[ROOT].start == 2)
    && (forall f {:trigger HasExtent(d, v, ps, f)} ::
          0 <= f < |ps| && (f != ROOT || v.l.fs.FAT32?) ==> HasExtent(d, v, ps, f))
  }

  /** A file is empty or has an extent of its own; directories are not empty. */
  ghost predicate HasExtent(d: Served, v: Volume, ps: seq<Payload>, f: int) {
    && 0 <= f < |d.k.sizes| && DiskShape(d.k)
    && (d.k.t.links[f].isDir ==> d.k.sizes[f].bytes > 0) && (!d.k.t.links[f].isDir ==> d.k.sizes[f].bytes < TWO32)
    && (d.k.sizes[f].bytes > 0 ==> exists i :: Owns(d, v, ps, f, i))
  }

  lemma RootRegionShown(v: Volume, raw: seq<byte>, j: nat)
    requires Dump(v, raw) && j < v.l.rootSectors * v.l.bps
    ensures SectorOffset(v.l, v.l.rootStart) + j < |raw|
    ensures Shows(DirCell(v.root, j), raw[SectorOffset(v.l, v.l.rootStart) + j])
  {
    var l := v.l;
    MulMono(l.rootSectors, l.sectors - l.rootStart, l.bps);
    PartShown(v, raw, l.rootStart, j);
    MulSplit(l.rootStart, l.rootSectors, l.bps);
    MulMono(l.fat1Start, l.rootStart, l.bps);
    MulMono(l.fat2Start, l.rootStart, l.bps);
  }

  lemma RootRegionFound(v: Volume, raw: seq<byte>)
    requires Dump(v, raw) && !v.l.fs.FAT32?
    ensures |RootBytes(raw, v.l)| == v.l.rootSectors * v.l.bps
    ensures ShownBy(DirData(v.root), RootBytes(raw, v.l))
  {
    var l := v.l;
    OffsetSplit(l, l.dataStart, 0);
    MulSplit(l.mbrSectors + l.rootStart, l.rootSectors, l.bps);
    MulMono(0, l.rootSectors, l.bps);
    forall j | 0 <= j < l.rootSectors * l.bps
      ensures Shows(PayloadCell(DirData(v.root), j), RootBytes(raw, l)[j])
    {
      RootRegionShown(v, raw, j);
    }
  }

  lemma DirChainFound(d: Served, v: Volume, ps: seq<Payload>, raw: seq<byte>, f: int)
    requires OnDisk(d, v, ps, raw) && 0 <= f < |ps| && d.k.t.links[f].isDir && HasExtent(d, v, ps, f)
    ensures DirFound(d.k, ChainBytes(raw, v.l, d.k.exts[f].start), f)
  {
    var i :| Owns(d, v, ps, f, i);
    PayloadFound(d, v, ps, raw, f, i);
    assert PayloadAt(d.k, ps, f);
    assert DirNumbered(d.k, d.fents, f);
    DirSlotsFit(d.k, d.fents, f);
  }

  lemma RootLocated(d: Served, v: Volume, ps: seq<Payload>, raw: seq<byte>)
    requires OnDisk(d, v, ps, raw)
    ensures Located(d.k, raw, ROOT, [])
    ensures v.l.fs.FAT32? ==> DirFound(d.k, RootBytes(raw, v.l), ROOT)
    ensures !v.l.fs.FAT32? ==> |RootBytes(raw, v.l)| == v.l.rootSectors * v.l.bps
  {
    if v.l.fs.FAT32? {
      assert HasExtent(d, v, ps, ROOT);
      DirChainFound(d, v, ps, raw, ROOT);
    } else {
      RootRegionFound(v, raw);
      assert PayloadAt(d.k, ps, ROOT);
    }
  }

  lemma FileFound(d: Served, v: Volume, ps: seq<Payload>, raw: seq<byte>, f: int, dir: seq<byte>, q: nat)
    requires OnDisk(d, v, ps, raw) && 0 < f < |ps| && !d.k.t.links[f].isDir && EntryFound(d.k, dir, q, f)
    ensures FileBytes(raw, v.l, dir, q) == Exactly(d.k.t.attrs[f].content, d.k.sizes[f].bytes)
  {
    assert HasExtent(d, v, ps, f);
    if d.k.sizes[f].bytes > 0 {
      var i :| Owns(d, v, ps, f, i);
      PayloadFound(d, v, ps, raw, f, i);
      assert PayloadAt(d.k, ps, f);
      FileShown(ChainBytes(raw, v.l, d.k.exts[f].start), d.k.t.attrs[f].content, d.k.sizes[f].bytes);
    }
  }

  lemma EntryRepresentable(d: Served, v: Volume, ps: seq<Payload>, raw: seq<byte>, f: int)
    requires OnDisk(d, v, ps, raw) && 0 < f < |ps| && d.k.t.links[f].parent != NONE
    ensures Representable(d.k, f)
  {
    assert HasExtent(d, v, ps, f);
    if d.k.sizes[f].bytes > 0 {
      var i :| Owns(d, v, ps, f, i);
      PayloadFound(d, v, ps, raw, f, i);
    }
  }

  /** From a located directory to one of its entries, provided that its slot lies inside the bytes. */
  lemma EntryLocated(d: Served, v: Volume, ps: seq<Payload>, raw: seq<byte>, p: int, j: nat, qs: seq<nat>)
    requires OnDisk(d, v, ps, raw) && Located(d.k, raw, p, qs) && d.k.t.links[p].isDir && j < |d.k.t.links[p].entries|
    requires DirSeen(d.k, DirBytesAt(raw, d.k.l, qs), p) && SlotInside(DirBytesAt(raw, d.k.l, qs), ShortAt(d.k, p, j))
    requires var f := d.k.t.links[p].entries[j]; 0 < f < |ps| && d.k.t.links[f].parent == p
    ensures Located(d.k, raw, d.k.t.links[p].entries[j], qs + [ShortAt(d.k, p, j)])
  {
    var k, f, q := d.k, d.k.t.links[p].entries[j], ShortAt(d.k, p, j);
    var dir := DirBytesAt(raw, k.l, qs);
    assert DirNumbered(k, d.fents, p);
    EntryRepresentable(d, v, ps, raw, f);
    EntryIsFound(k, dir, p, j);
    LongIsFound(k, dir, p, j, f, k.t.attrs[f].name);
    assert (qs + [q])[..|qs + [q]| - 1] == qs;
    assert IsEntrySlot(k, p, f, q);
    if k.t.links[f].isDir {
      assert HasExtent(d, v, ps, f);
      DirChainFound(d, v, ps, raw, f);
    } else {
      FileFound(d, v, ps, raw, f, dir, q);
    }
  }

  // ---------------------------------------------------------------- which files are found

  /** The entry of the root directory at or above which `f` lies has its short slot in the first `size` bytes. */
  ghost predicate RootEntryInside(k: Disk, repr: seq<set<int>>, f: int, size: nat)
    requires DiskShape(k) && |k.sizes| > 0 && |repr| == |k.sizes|
  {
    var es := k.t.links[ROOT].entries;
    forall j: nat {:trigger es[j]} ::
      j < |es| && 0 <= es[j] < |repr| && f in repr[es[j]] ==> 32 * ShortAt(k, ROOT, j) + 32 <= size
  }

  /** What the code guarantees for file `f`: on FAT32 always, on FAT16 if its root entry lies in the root region. */
  ghost predicate Recoverable(k: Disk, repr: seq<set<int>>, f: int)
    requires DiskShape(k) && |k.sizes| > 0 && |repr| == |k.sizes|
  {
    k.l.fs.FAT32? || RootEntryInside(k, repr, f, k.l.rootSectors * k.l.bps)
  }

  /** Everything at or below a located directory can be located, as far as its root entry is inside. */
  lemma {:induction false} BelowLocated(d: Served, v: Volume, ps: seq<Payload>, raw: seq<byte>, repr: seq<set<int>>,
                                        p: int, qs: seq<nat>, x: int)
    returns (rs: seq<nat>)
    requires OnDisk(d, v, ps, raw) && TreeOk(d.k.t.links, repr) && Located(d.k, raw, p, qs) && x in repr[p]
    requires p == ROOT ==> qs == []
    requires Recoverable(d.k, repr, x)
    ensures Located(d.k, raw, x, rs)
    decreases repr[p]
  {
    var links := d.k.t.links;
    assert NodeOk(links, repr, p);
    if x == p {
      return qs;
    }
    assert InChild(links, repr, p, x);
    var j: nat :| j < |links[p].entries| && 0 <= links[p].entries[j] < |repr| && x in repr[links[p].entries[j]];
    var e := links[p].entries[j];
    assert EntryOk(links, repr, p, e);
    assert Within(repr, p, e);
    EntryReached(d, v, ps, raw, repr, p, qs, x, j);
    EntryLocated(d, v, ps, raw, p, j, qs);
    rs := BelowLocated(d, v, ps, raw, repr, e, qs + [ShortAt(d.k, p, j)], x);
  }

  lemma EntryReached(d: Served, v: Volume, ps: seq<Payload>, raw: seq<byte>, repr: seq<set<int>>, p: int, qs: seq<nat>,
                     x: int, j: nat)
    requires OnDisk(d, v, ps, raw) && TreeOk(d.k.t.links, repr) && Located(d.k, raw, p, qs) && Recoverable(d.k, repr, x)
    requires p == ROOT ==> qs == []
    requires j < |d.k.t.links[p].entries| && 0 <= d.k.t.links[p].entries[j] < |repr|
    requires x in repr[d.k.t.links[p].entries[j]]
    ensures d.k.t.links[p].isDir && DirSeen(d.k, DirBytesAt(raw, d.k.l, qs), p)
    ensures SlotInside(DirBytesAt(raw, d.k.l, qs), ShortAt(d.k, p, j))
  {
    RootLocated(d, v, ps, raw);
    assert NodeOk(d.k.t.links, repr, p);
    assert DirNumbered(d.k, d.fents, p);
    if p != ROOT || v.l.fs.FAT32? {
      ShortInside(d.k, DirBytesAt(raw, d.k.l, qs), p, j);
    }
  }

  /** At most one entry of the root has `f` at or below it. */
  lemma RootEntryUnique(links: seq<Links>, repr: seq<set<int>>, i: nat, j: nat, f: int)
    requires TreeOk(links, repr) && i < |links[ROOT].entries| && j < |links[ROOT].entries|
    requires 0 <= links[ROOT].entries[i] < |repr| && 0 <= links[ROOT].entries[j] < |repr|
    requires f in repr[links[ROOT].entries[i]] && f in repr[links[ROOT].entries[j]]
    ensures i == j
  {
    assert NodeOk(links, repr, ROOT);
    assert i < j ==> Apart(repr, links[ROOT].entries[i], links[ROOT].entries[j]);
    assert j < i ==> Apart(repr, links[ROOT].entries[j], links[ROOT].entries[i]);
  }

  /** A located file has its root entry inside the bytes of the root directory. */
  lemma {:induction false} LocatedInside(k: Disk, raw: seq<byte>, repr: seq<set<int>>, f: int, qs: seq<nat>)
    requires TreeOk(k.t.links, repr) && Located(k, raw, f, qs)
    ensures RootEntryInside(k, repr, f, |RootBytes(raw, k.l)|)
    decreases |qs|
  {
    var links := k.t.links;
    var es := links[ROOT].entries;
    assert NodeOk(links, repr, ROOT);
    forall j: nat {:trigger es[j]} | j < |es| && 0 <= es[j] < |repr| && f in repr[es[j]]
      ensures 32 * ShortAt(k, ROOT, j) + 32 <= |RootBytes(raw, k.l)|
    {
      assert EntryOk(links, repr, ROOT, es[j]);
      if qs != [] {
        var p, before := links[f].parent, qs[..|qs| - 1];
        if before == [] {
          var i: nat :| i < |es| && es[i] == f && qs[|qs| - 1] == ShortAt(k, ROOT, i);
          assert NodeOk(links, repr, f);
          RootEntryUnique(links, repr, i, j, f);
        } else {
          LocatedInside(k, raw, repr, p, before);
          ParentBelow(links, repr, p, f, j);
        }
      }
    }
  }

  /** The parent of `f`, unless it is the root, lies below the same root entry. */
  lemma ParentBelow(links: seq<Links>, repr: seq<set<int>>, p: int, f: int, j: nat)
    requires TreeOk(links, repr) && 0 <= p < |links| && links[p].parent != NONE && f in links[p].entries
    requires j < |links[ROOT].entries| && 0 <= links[ROOT].entries[j] < |repr| && f in repr[links[ROOT].entries[j]]
    ensures p in repr[links[ROOT].entries[j]]
  {
    var es := links[ROOT].entries;
    assert NodeOk(links, repr, ROOT);
    assert p in repr[ROOT] && p != ROOT;
    assert InChild(links, repr, ROOT, p);
    var i: nat :| i < |es| && 0 <= es[i] < |repr| && p in repr[es[i]];
    assert NodeOk(links, repr, p);
    var m: nat :| m < |links[p].entries| && links[p].entries[m] == f;
    assert EntryOk(links, repr, p, f);
    assert NodeOk(links, repr, es[i]);
    assert Within(repr, es[i], p);
    RootEntryUnique(links, repr, i, j, f);
  }

  lemma DriveOnDisk(d: Served, repr: seq<set<int>>, all: seq<int>, nonempty: nat, raw: seq<byte>)
    requires CleanState(d, repr, all, nonempty) && Complete(d, all) && Dump(VolumeFor(d), raw)
    ensures OnDisk(d, VolumeFor(d), PayloadsFor(d.k), raw)
  {
    var v, ps := VolumeFor(d), PayloadsFor(d.k);
    VolumeSound(d, repr, all, nonempty);
    PayloadsForOk(d.k);
    DirsReady(d, repr, all, nonempty);
    RootFirst(d, repr, all, nonempty);
    forall f {:trigger HasExtent(d, v, ps, f)} | 0 <= f < |ps| && (f != ROOT || v.l.fs.FAT32?)
      ensures HasExtent(d, v, ps, f)
    {
      ListedHasExtent(d, repr, all, nonempty, f);
    }
  }

  /** On FAT32 the root is the first file to be placed. */
  lemma RootFirst(d: Served, repr: seq<set<int>>, all: seq<int>, nonempty: nat)
    requires CleanState(d, repr, all, nonempty) && Wellfilled(d, all)
    ensures d.k.l.fs.FAT32? ==> d.k.exts[ROOT].start == 2
  {
    if d.k.l.fs.FAT32? {
      assert PlacedIndex(d.k.l, d.k.sizes, d.k.exts, all, 0);
      assert Used(d.k.sizes, all, 0) == 0;
    }
  }

  lemma ListedHasExtent(d: Served, repr: seq<set<int>>, all: seq<int>, nonempty: nat, f: int)
    requires CleanState(d, repr, all, nonempty) && Wellfilled(d, all) && 0 <= f < |d.k.sizes|
    requires (f != ROOT || d.k.l.fs.FAT32?)
    ensures HasExtent(d, VolumeFor(d), PayloadsFor(d.k), f)
  {
    assert f in all;
    var i: nat :| i < |all| && all[i] == f;
    SizesAreExact(d, repr, all, nonempty);
    FilledIsSubstantial(d, repr, all, nonempty);
    assert Substantial(d.k.t.links, d.k.sizes, all[i]);
    if d.k.sizes[f].bytes > 0 {
      OwnerFound(d, repr, all, nonempty, i);
    }
  }

  /** Some path of slots leads to file `f`. */
  ghost predicate Found(k: Disk, raw: seq<byte>, f: int) {
    exists qs :: Located(k, raw, f, qs)
  }

  /** End-to-end recovery: whoever has read all bytes of a clean drive finds file `f`, at any depth, by following
      directory slots and cluster chains in those bytes, if and only if on FAT16 the entry of the root directory
      that leads to it lies inside the root region. */
  lemma EveryFileRecovered(drv: Drive, raw: seq<byte>, f: int)
    requires Servable(drv) && Complete(ServedOf(drv), drv.all)
    requires Dump(VolumeOf(drv), raw) && 0 <= f < |drv.links|
    ensures Found(DiskOf(drv), raw, f) <==> Recoverable(DiskOf(drv), drv.repr, f)
  {
    var d := ServedOf(drv);
    DriveOnDisk(d, drv.repr, drv.all, drv.nonemptyCnt, raw);
    FoundIfRecoverable(d, VolumeFor(d), PayloadsFor(d.k), raw, drv.repr, f);
    RecoverableIfFound(d, VolumeFor(d), PayloadsFor(d.k), raw, drv.repr, f);
  }

  lemma FoundIfRecoverable(d: Served, v: Volume, ps: seq<Payload>, raw: seq<byte>, repr: seq<set<int>>, f: int)
    requires OnDisk(d, v, ps, raw) && TreeOk(d.k.t.links, repr) && 0 <= f < |d.k.sizes|
    ensures Recoverable(d.k, repr, f) ==> Found(d.k, raw, f)
  {
    if Recoverable(d.k, repr, f) {
      RootLocated(d, v, ps, raw);
      var qs := BelowLocated(d, v, ps, raw, repr, ROOT, [], f);
    }
  }

  lemma RecoverableIfFound(d: Served, v: Volume, ps: seq<Payload>, raw: seq<byte>, repr: seq<set<int>>, f: int)
    requires OnDisk(d, v, ps, raw) && TreeOk(d.k.t.links, repr) && 0 <= f < |d.k.sizes|
    ensures Found(d.k, raw, f) ==> Recoverable(d.k, repr, f)
  {
    if qs :| Located(d.k, raw, f, qs) {
      LocatedInside(d.k, raw, repr, f, qs);
      RootLocated(d, v, ps, raw);
    }
  }

  // ---------------------------------------------------------------- nothing else is found

  lemma LocatedDirSeen(d: Served, v: Volume, ps: seq<Payload>, raw: seq<byte>, p: int, qs: seq<nat>)
    requires OnDisk(d, v, ps, raw) && Located(d.k, raw, p, qs) && d.k.t.links[p].isDir
    ensures DirSeen(d.k, DirBytesAt(raw, d.k.l, qs), p) && EntriesIn(d.k.t.links[p].entries, |d.k.sizes|)
    ensures p != ROOT || v.l.fs.FAT32? ==> DirFound(d.k, DirBytesAt(raw, d.k.l, qs), p)
  {
    RootLocated(d, v, ps, raw);
    assert DirNumbered(d.k, d.fents, p);
  }

  lemma WholeInside(k: Disk, dir: seq<byte>, p: int)
    requires DirFound(k, dir, p) && EntriesIn(k.t.links[p].entries, |k.sizes|)
    ensures InsideUpTo(k, dir, p, |k.t.links[p].entries|)
  {
    forall j: nat {:trigger ShortAt(k, p, j)} | j < |k.t.links[p].entries|
      ensures SlotInside(dir, ShortAt(k, p, j))
    {
      ShortInside(k, dir, p, j);
    }
  }

  /** The start cluster that the dot entries show for a directory fits its fields. */
  lemma DirStartFits(d: Served, v: Volume, ps: seq<Payload>, raw: seq<byte>, p: int)
    requires OnDisk(d, v, ps, raw) && 0 <= p < |ps| && (v.l.fs.FAT32? || d.k.exts[ROOT].start == 0)
    ensures StartShown(d.k, p) < if v.l.fs.FAT32? then TWO32 else 0x1_0000
  {
    if p != ROOT {
      assert HasExtent(d, v, ps, p);
      if d.k.sizes[p].bytes > 0 {
        var i :| Owns(d, v, ps, p, i);
        PayloadFound(d, v, ps, raw, p, i);
      }
    }
  }

  /** What a host finds when it scans a located directory: behind the dot entries exactly the short slots of its
      entries in list order, as far as they are inside, if and only if each of these can be seen. Only the root of
      FAT16 can be cut off. */
  lemma EveryDirectoryScanned(drv: Drive, raw: seq<byte>, p: int, qs: seq<nat>, m: nat)
    requires Servable(drv) && Complete(ServedOf(drv), drv.all) && Dump(VolumeOf(drv), raw)
    requires 0 <= p < |drv.links| && drv.links[p].isDir && Located(DiskOf(drv), raw, p, qs)
    ensures
      var k, dir, es := DiskOf(drv), DirBytesAt(raw, drv.layout, qs), drv.links[p].entries;
      && (InsideUpTo(k, dir, p, m) ==>
            (ScanFrom(dir, HeadCount(k, p)) == ShortSlots(k, p, 0, m) <==> AllListable(k, es, 0, m)))
      && (p != ROOT || drv.layout.fs.FAT32? ==> InsideUpTo(k, dir, p, |es|))
  {
    var d, dir := ServedOf(drv), DirBytesAt(raw, drv.layout, qs);
    DriveOnDisk(d, drv.repr, drv.all, drv.nonemptyCnt, raw);
    LocatedDirSeen(d, VolumeFor(d), PayloadsFor(d.k), raw, p, qs);
    if InsideUpTo(d.k, dir, p, m) {
      ScanFindsEntries(d.k, dir, p, m);
    }
    if p != ROOT || drv.layout.fs.FAT32? {
      WholeInside(d.k, dir, p);
    }
  }

  /** The dot entries of a located directory lead to the directory itself and to its parent, where cluster 0 stands
      for the root. */
  lemma DotsLeadBack(drv: Drive, raw: seq<byte>, p: int, qs: seq<nat>)
    requires Servable(drv) && Complete(ServedOf(drv), drv.all) && Dump(VolumeOf(drv), raw)
    requires 0 < p < |drv.links| && drv.links[p].isDir && Located(DiskOf(drv), raw, p, qs)
    ensures
      var dir, up := DirBytesAt(raw, drv.layout, qs), drv.links[p].parent;
      && 0 <= up < |drv.links|
      && SlotName(dir, 0) == DotField(1) && SlotStart(drv.layout.fs, dir, 0) == drv.exts[p].start
      && SlotName(dir, 1) == DotField(2)
      && SlotStart(drv.layout.fs, dir, 1) == if up == ROOT then 0 else drv.exts[up].start
  {
    var d, dir, up := ServedOf(drv), DirBytesAt(raw, drv.layout, qs), drv.links[p].parent;
    var v, ps := VolumeFor(d), PayloadsFor(d.k);
    DriveOnDisk(d, drv.repr, drv.all, drv.nonemptyCnt, raw);
    LocatedDirSeen(d, v, ps, raw, p, qs);
    DirStartFits(d, v, ps, raw, p);
    DirStartFits(d, v, ps, raw, up);
    DirCount(d.k, p);
    DotsFound(d.k, dir, p);
    assert HasExtent(d, v, ps, p);
    assert up != ROOT ==> HasExtent(d, v, ps, up);
  }

  // ---------------------------------------------------------------- a root directory that is too small

  lemma {:induction false} LongSlots(k: Disk, j: nat)
    requires DiskShape(k) && |k.sizes| > 0 && k.t.vfat && j <= |k.t.links[ROOT].entries|
    requires forall i :: 0 <= i < |k.t.links[ROOT].entries| ==>
               0 <= k.t.links[ROOT].entries[i] < |k.sizes| && k.t.attrs[k.t.links[ROOT].entries[i]].longName
    ensures SlotSum(k.t, k.t.links[ROOT].entries, j) >= 2 * j
  {
    if j > 0 {
      LongSlots(k, j - 1);
    }
  }

  /** The code counts files, not slots: in a FAT16 root whose region is made for `root_dir_cnt` slots, files with
      long names from the middle on are lost, although `create_file` accepts all of them. */
  lemma RootTooSmall(k: Disk, repr: seq<set<int>>, j: nat)
    requires TreeOk(k.t.links, repr) && DiskShape(k) && k.t.vfat && k.l.fs.FAT16?
    requires j < |k.t.links[ROOT].entries| <= k.l.rootDirCnt && k.l.rootSectors * k.l.bps == 32 * k.l.rootDirCnt
    requires forall i :: 0 <= i < |k.t.links[ROOT].entries| ==>
               0 <= k.t.links[ROOT].entries[i] < |k.sizes| && k.t.attrs[k.t.links[ROOT].entries[i]].longName
    requires 2 * j + 2 > k.l.rootDirCnt
    ensures !Recoverable(k, repr, k.t.links[ROOT].entries[j])
  {
    var e := k.t.links[ROOT].entries[j];
    assert NodeOk(k.t.links, repr, ROOT);
    assert NodeOk(k.t.links, repr, e);
    LongSlots(k, j);
    assert e in repr[e];
  }

  /** A root directory with `n` files. */
  function FlatTree(n: nat): (links: seq<Links>)
    ensures |links| == n + 1
  {
    [Links(NONE, true, seq(n, i => i + 1))] + seq(n, i => Links(ROOT, false, []))
  }

  function UpTo(n: nat): (s: set<int>)
    ensures forall x :: x in s <==> 0 <= x <= n
  {
    if n == 0 then {0} else UpTo(n - 1) + {n}
  }

  function FlatRepr(n: nat): (repr: seq<set<int>>)
    ensures |repr| == n + 1
  {
    [UpTo(n)] + seq(n, i => {i + 1})
  }

  lemma FlatTreeOk(n: nat)
    ensures TreeOk(FlatTree(n), FlatRepr(n))
  {
    var links, repr := FlatTree(n), FlatRepr(n);
    forall x {:trigger InChild(links, repr, ROOT, x)} | x in repr[ROOT] && x != ROOT
      ensures InChild(links, repr, ROOT, x)
    {
      assert links[ROOT].entries[x - 1] == x && x in repr[x];
    }
    forall d {:trigger NodeOk(links, repr, d)} | 0 <= d < |links|
      ensures NodeOk(links, repr, d)
    {
    }
  }

  /** Such an input: sixteen files with long names in a FAT16 root of sixteen slots; the last eight are lost. */
  lemma RootTooSmallExample(k: Disk, j: nat)
    requires DiskShape(k) && k.t.links == FlatTree(16) && k.t.vfat && k.l.fs.FAT16?
    requires k.l.rootDirCnt == 16 && k.l.rootSectors == 1 && k.l.bps == 512
    requires forall f :: 0 < f <= 16 ==> k.t.attrs[f].longName
    requires 8 <= j < 16
    ensures !Recoverable(k, FlatRepr(16), j + 1)
  {
    FlatTreeOk(16);
    assert k.t.links[ROOT].entries[j] == j + 1;
    RootTooSmall(k, FlatRepr(16), j);
  }

  /** In those bytes, the only chain from the start cluster of a file runs through exactly its clusters. */
  lemma EveryChainRecovered(drv: Drive, raw: seq<byte>, f: int, path: seq<nat>)
    requires Servable(drv) && Complete(ServedOf(drv), drv.all) && Dump(VolumeOf(drv), raw)
    requires 0 <= f < |drv.exts| && f in drv.all && drv.sizes[f].bytes > 0
    ensures drv.exts[f].start <= drv.exts[f].end
    ensures |path| > 0 && path[0] == drv.exts[f].start && IsChain(raw, drv.layout, path) <==>
            path == Run(drv.exts[f].start, drv.exts[f].end)
  {
    var d, v := ServedOf(drv), VolumeOf(drv);
    VolumeSound(d, drv.repr, drv.all, drv.nonemptyCnt);
    var i: nat :| i < |drv.all| && drv.all[i] == f;
    ExtentOfFile(d, v, f, i, drv.all, drv.repr, drv.nonemptyCnt);
    ChainIsExtent(v, raw, EntryNumber(drv.links, drv.sizes, drv.all, i), path);
  }

  lemma ExtentOfFile(d: Served, v: Volume, f: int, i: nat, all: seq<int>, repr: seq<set<int>>, nonempty: nat)
    requires CleanState(d, repr, all, nonempty) && Wellfilled(d, all) && i < |all| && all[i] == f
    requires v == VolumeFor(d) && 0 <= f < |d.k.sizes| && d.k.sizes[f].bytes > 0
    ensures
      var n := EntryNumber(d.k.t.links, d.k.sizes, all, i);
      n < |v.xs| && v.xs[n].start == d.k.exts[f].start && v.xs[n].end == d.k.exts[f].end
  {
    EntryFile(d, repr, all, nonempty, i);
    TableIsGood(d, repr, all, nonempty);
    IndexIsOk(d, PayloadsFor(d.k));
    var n := EntryNumber(d.k.t.links, d.k.sizes, all, i);
    assert IndexedAt(d.ranges[n], d.k.exts, v.xs[n]);
  }

  /** FSInfo on a clean FAT32 drive: what a host reads adds up with the clusters in use. */
  lemma DriveFreeCount(drv: Drive, raw: seq<byte>)
    requires Servable(drv) && Complete(ServedOf(drv), drv.all) && Dump(VolumeOf(drv), raw)
    requires drv.layout.fs.FAT32? && drv.layout.fat1Start > 1
    requires EntryPos(drv.layout.fs, drv.layout.clusters + 2) <= drv.layout.fatSectors * drv.layout.bps
    ensures FreeCountShown(raw, drv.layout) + Used(drv.sizes, drv.all, |drv.all|) == drv.layout.clusters
    ensures FreeCountShown(raw, drv.layout) == FreeEntries(raw, drv.layout, drv.layout.clusters + 2)
  {
    VolumeSound(ServedOf(drv), drv.repr, drv.all, drv.nonemptyCnt);
    VolumeFreeCount(VolumeOf(drv), raw, Used(drv.sizes, drv.all, |drv.all|));
  }

  lemma VolumeFreeCount(v: Volume, raw: seq<byte>, used: nat)
    requires Sound(v) && Dump(v, raw) && ClusterEnd(v.xs) == 2 + used
    requires v.l.fs.FAT32? && v.l.fat1Start > 1 && EntryPos(v.l.fs, v.l.clusters + 2) <= v.l.fatSectors * v.l.bps
    ensures FreeCountShown(raw, v.l) + used == v.l.clusters
    ensures FreeCountShown(raw, v.l) == FreeEntries(raw, v.l, v.l.clusters + 2)
  {
    FreeCountConserved(v, raw);
  }

  // ---------------------------------------------------------------- reading the whole device

  lemma ShownIsDump(v: Volume, buffer: array<byte>)
    requires Regions(v.l) && !v.l.fs.FAT12? && buffer.Length == ImageBytes(v.l)
    requires ShowsImage(buffer, 0, Image(v), 0, buffer.Length)
    ensures Dump(v, buffer[..])
  {
    var raw := buffer[..];
    forall o {:trigger DumpByte(v, raw, o)} | 0 <= o < |raw|
      ensures DumpByte(v, raw, o)
    {
      assert ImageByte(v, Image(v), o);
      assert Shows(Image(v)[0 + (o - 0)], buffer[o]);
    }
  }

  lemma WholeDevice(l: Layout)
    requires Regions(l)
    ensures ImageBytes(l) > 0 && ByteYield(l, 0, ImageBytes(l)) == ImageBytes(l)
    ensures CeilDiv(0 + ImageBytes(l), l.bps) == TotalSectors(l) && 0 / l.bps == 0
  {
    MulMono(1, TotalSectors(l), l.bps);
    CeilDivParts(l.bps, TotalSectors(l), 0);
  }

  /** The one call that reads a whole device starts at its first sector. */
  lemma DeviceBegins(drv: Drive)
    requires Servable(drv) && TotalSectors(drv.layout) < 0x8000_0000
    ensures BytesStartable(drv, 0, ImageBytes(drv.layout))
  {
    var d, v, n := ServedOf(drv), VolumeOf(drv), ImageBytes(drv.layout);
    DriveServes(drv);
    FrontBegins(d, v, PayloadsFor(d.k));
    forall q: nat, rest: nat {:trigger Splits(n, q, rest, v.l.bps)} | Splits(n, q, rest, v.l.bps)
      ensures q < 0x8000_0000 && PartsBegin(d, v, 0, q, rest)
    {
      SplitUnique(q, rest, TotalSectors(v.l), v.l.bps);
    }
    forall soff: nat, from: nat {:trigger Splits(0, soff, from, v.l.bps)} | Splits(0, soff, from, v.l.bps)
      ensures soff == 0 && from == 0
    {
      SplitUnique(soff, from, 0, v.l.bps);
    }
  }

  lemma FrontBegins(d: Served, v: Volume, ps: seq<Payload>)
    requires Serves(d, v, ps)
    ensures Begins(d, v, 0)
  {
    DataStartBegins(d, v, ps);
  }

  lemma SplitUnique(q: nat, rest: nat, t: nat, bps: nat)
    requires rest < bps && q * bps + rest == t * bps
    ensures q == t && rest == 0
  {
    MulSplit(q, 1, bps);
    MulSplit(t, 1, bps);
    if q < t {
      MulMono(q + 1, t, bps);
    } else if t < q {
      MulMono(t + 1, q, bps);
    }
  }

  /** Reading the whole device through `vdf_read_bytes` yields such bytes, unless a file cannot be read or a
      file is empty and the table is read behind its last entry. */
  method ReadDevice(drv: Drive, buffer: array<byte>) returns (ok: bool)
    requires Servable(drv) && buffer.Length == ImageBytes(drv.layout) && TotalSectors(drv.layout) < 0x8000_0000
    modifies buffer
    ensures ok ==> Dump(VolumeOf(drv), buffer[..])
    ensures ok == Outcome(drv, 0, TotalSectors(drv.layout)).Complete?
  {
    WholeDevice(drv.layout);
    DeviceBegins(drv);
    var r := VdfReadBytes(drv, 0, buffer.Length, buffer);
    ok := r >= 0;
    if ok {
      ShownIsDump(VolumeOf(drv), buffer);
    }
  }

  // ---------------------------------------------------------------- drives with a planned layout

  /** What geometry contributes: the layout of an accepted plan that is aligned, whose tables fill a cluster, or
      whose margin suffices has a table entry for every cluster that any clean drive with it can use. */
  lemma PlannedDriveHasRoom(drv: Drive, sectors: u32, rootCnt: nat, o: Geometry.Options)
    requires drv.Valid() && !drv.dirty && !drv.layout.fs.FAT12?
    requires var l := drv.layout;
             && Geometry.ClusterChoice(l.fs, l.spc) && rootCnt <= 65535
             && Geometry.Ideal(l.fs, sectors, l.bps, l.spc, rootCnt, o) == Geometry.Some(l)
             && (o.align || l.fatSectors >= l.spc ||
                 Geometry.RoomMargin(l.fs, sectors, l.bps, l.spc, rootCnt, o.align) >= 2)
    ensures drv.dataClusterEnd <= drv.layout.clusters + 2
    ensures EntryPos(drv.layout.fs, drv.dataClusterEnd) <= drv.layout.fatSectors * drv.layout.bps
  {
    var l := drv.layout;
    Geometry.TableRoom(l.fs, sectors, l.bps, l.spc, rootCnt, o);
    Geometry.TableRoomExactly(l.fs, sectors, l.bps, l.spc, rootCnt, o);
    UsedFits(l, Used(drv.sizes, drv.all, |drv.all|));
    Geometry.RoomForUse(l, drv.dataClusterEnd);
  }
}
