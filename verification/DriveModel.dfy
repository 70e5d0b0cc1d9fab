/** The drive object: its file tables, layout recalculation, locking and the operations that dirty it
    (libvdf/drive.c, libvdf/file.c). */
module DriveModel {
  import opened Bytes
  import opened Volume
  import opened Names
  import opened FileTree
  import opened TreeGrowth

  const DEFAULT_SERIAL: u32 := 0x1234_5678

  /** Directory sizes stay inside a C `int`. */
  predicate DirsFit(t: Tree) {
    forall d :: 0 <= d < |t.links| && t.links[d].isDir ==>
                  (SlotBase(t, d) + SlotSum(t, t.links[d].entries, |t.links[d].entries|)) * 32 + t.bpc < 0x8000_0000
  }

  ghost predicate FilesSized(links: seq<Links>, sizes: seq<Size>, bpc: nat) {
    && bpc > 0
    && forall f :: 0 <= f < |links| && f < |sizes| && !links[f].isDir ==> SizeOk(sizes[f], bpc)
  }

  /** Only files have a callback. */
  ghost predicate VirtualFiles(links: seq<Links>, attrs: seq<Attr>) {
    forall f :: 0 <= f < |links| && f < |attrs| && attrs[f].virt ==> !links[f].isDir
  }

  ghost predicate Named(attrs: seq<Attr>) {
    forall f :: 0 <= f < |attrs| ==> NulFree(attrs[f].name) && NulFree(attrs[f].shortname)
  }

  ghost predicate TablesOk(l: Layout, links: seq<Links>, attrs: seq<Attr>, sizes: seq<Size>, all: seq<int>,
                           fileCnt: nat) {
    && ListOk(all, |links|, l.fs.FAT32?) && fileCnt >= |all|
    && FilesSized(links, sizes, BytesPerCluster(l))
    && Named(attrs)
    && VirtualFiles(links, attrs)
  }

  /** No allocation is so large that a 32-bit sector number could wrap. */
  ghost predicate Modest(l: Layout, sizes: seq<Size>) {
    && l.sectors < 0x8000_0000
    && forall f :: 0 <= f < |sizes| ==> sizes[f].clusters * l.spc < 0x8000_0000
  }

  /** The running totals after `k` files. */
  ghost predicate Counted(l: Layout, sizes: seq<Size>, all: seq<int>, k: nat, dataEnd: nat, clusterEnd: nat,
                          nonempty: nat)
    requires k <= |all|
  {
    && clusterEnd == 2 + Used(sizes, all, k)
    && dataEnd == l.dataStart + Used(sizes, all, k) * l.spc
    && (dataEnd < l.sectors || Used(sizes, all, k) == 0)
    && nonempty == NonemptyCount(sizes, all, k)
  }

  /** A file that is not in the list of all files, as the root of FAT16, is never placed. */
  ghost predicate Unplaced(all: seq<int>, exts: seq<Ext>) {
    forall x {:trigger exts[x]} :: 0 <= x < |exts| && x !in all ==> exts[x].start == 0
  }

  ghost predicate OnlyListed(all: seq<int>, a: seq<Ext>, b: seq<Ext>) {
    |a| == |b| && forall x {:trigger b[x]} :: 0 <= x < |a| && x !in all ==> b[x] == a[x]
  }

  ghost predicate TableSortable(links: seq<Links>, sizes: seq<Size>, all: seq<int>) {
    forall i {:trigger NoEmptyDir(links, sizes, all[i])} :: 0 <= i < |all| ==> NoEmptyDir(links, sizes, all[i])
  }

  /** What a search of directory `d` compares against. */
  function SiblingsOf(links: seq<Links>, attrs: seq<Attr>, d: int): (r: seq<Sibling>)
    requires 0 <= d < |links|
    ensures |r| == |links[d].entries|
  {
    var es := links[d].entries;
    seq(|es|, k requires 0 <= k < |es| =>
          if 0 <= es[k] < |attrs| then Sibling(attrs[es[k]].name, attrs[es[k]].shortname) else Sibling([], []))
  }

  ghost predicate Exists(dir: seq<Sibling>, name: Name) {
    exists k :: 0 <= k < |dir| && Matches(dir[k], name, AnyName)
  }

  /** Another entry of the same directory has this long name. */
  ghost predicate Clash(links: seq<Links>, attrs: seq<Attr>, f: int, name: Name)
    requires 0 <= f < |links|
  {
    var p := links[f].parent;
    && 0 <= p < |links|
    && exists k ::
         && 0 <= k < |links[p].entries| && links[p].entries[k] != f
         && Matches(SiblingsOf(links, attrs, p)[k], name, LongOnly)
  }

  lemma EntriesDistinct(links: seq<Links>, repr: seq<set<int>>, p: int, j: int, k: int)
    requires TreeOk(links, repr) && 0 <= p < |links| && 0 <= j < |links[p].entries| && 0 <= k < |links[p].entries|
    requires j != k
    ensures links[p].entries[j] != links[p].entries[k]
  {
    var es := links[p].entries;
    assert NodeOk(links, repr, p);
    assert EntryOk(links, repr, p, es[j]);
    assert NodeOk(links, repr, es[j]);
    if j < k {
      assert Apart(repr, es[j], es[k]);
    } else {
      assert Apart(repr, es[k], es[j]);
    }
  }

  method FindClash(links: seq<Links>, attrs: seq<Attr>, ghost repr: seq<set<int>>, f: int, name: Name)
    returns (clash: bool, dir: seq<Sibling>, skip: int)
    requires TreeOk(links, repr) && 0 <= f < |links| && 0 <= links[f].parent < |links|
    ensures clash == Clash(links, attrs, f, name)
    ensures dir == SiblingsOf(links, attrs, links[f].parent) && Skips(links[links[f].parent].entries, f, skip)
  {
    var p := links[f].parent;
    dir := SiblingsOf(links, attrs, p);
    skip := IndexIn(links[p].entries, f);
    var r := FindFileSkip(dir, name, LongOnly, skip);
    clash := r >= 0;
    if clash && skip >= 0 {
      EntriesDistinct(links, repr, p, r, skip);
    }
  }

  class Drive {
    const layout: Layout
    var lockcnt: nat
    var dirty: bool
    var links: seq<Links>
    var attrs: seq<Attr>
    var sizes: seq<Size>
    var exts: seq<Ext>
    var fents: seq<Fent>
    var dirCnts: seq<nat>
    var all: seq<int>
    var fileCnt: nat
    var nonemptyCnt: nat
    var ranges: seq<Range>
    var dataEnd: nat
    var dataClusterEnd: nat
    var serial: u32
    var title: Label
    ghost var repr: seq<set<int>>

    ghost predicate Shape()
      reads this
    {
      && LayoutOk(layout)
      && |links| == |attrs| == |sizes| == |exts| == |fents| == |dirCnts|
      && TreeOk(links, repr)
    }

    function T(): Tree
      reads this
    {
      Tree(layout.vfat, title.Labelled?, BytesPerCluster(layout), links, attrs)
    }

    /** A new drive (`createdrive_ext`, `create_root_dir`): only the root directory, which is in the list
        of all files on FAT32. */
    constructor (l: Layout)
      requires LayoutOk(l)
      ensures Valid() && layout == l && serial == DEFAULT_SERIAL && title == Unlabelled
      ensures dirty && lockcnt == 0 && links == [Links(NONE, true, [])]
      ensures fileCnt == |all| == (if l.fs.FAT32? then 1 else 0) && dirCnts == [0]
    {
      layout := l;
      serial, title := DEFAULT_SERIAL, Unlabelled;
      lockcnt, dirty := 0, true;
      links := [Links(NONE, true, [])];
      attrs := [Attr([82, 79, 79, 84], [], false, 0x30, Stamp(0, 0, 0), false, [], true)];
      sizes, exts, fents, dirCnts := [Size(0, 0)], [Ext(0, 0, 0, 0)], [Fent(0, 0, 0)], [0];
      all := if l.fs.FAT32? then [ROOT] else [];
      fileCnt := if l.fs.FAT32? then 1 else 0;
      nonemptyCnt, ranges, dataEnd, dataClusterEnd := 0, [], l.dataStart, 2;
      repr := [{ROOT}];
      new;
      LoneRoot(links, repr);
      PositiveProduct(l.bps, l.spc);
    }

    // -------------------------------------------------------------- numbering directory slots

    /** `file_recalc_dir`. */
    method FileRecalcDir(f: int)
      requires Shape() && 0 <= f < |links|
      requires links[f].parent != NONE ==> 0 <= links[f].parent < |links| && links[f].parent != f
      modifies `fents
      ensures SameOutside(links, {f}, links[f].parent, old(fents), sizes, fents, sizes)
      ensures fents[f].total == old(fents)[f].total
      ensures links[f].parent == NONE ==> fents == old(fents)
      ensures links[f].parent != NONE ==> Entered(T(), f, old(fents), fents)
    {
      var p := links[f].parent;
      if p != NONE {
        var extra := FentsNeeded(layout.vfat, attrs[f]);
        fents := fents[f := fents[f].(start := fents[p].total, extra := extra)];
        fents := fents[p := fents[p].(total := fents[p].total + extra + 1)];
      }
    }

    /** `dir_recalc`. */
    method DirRecalc(d: int)
      requires Shape() && BytesPerCluster(layout) > 0
      requires 0 <= d < |links| && links[d].isDir
      requires links[d].parent == NONE || (0 <= links[d].parent < |links| && links[d].parent !in repr[d])
      modifies `fents, `sizes
      ensures SameOutside(links, repr[d], links[d].parent, old(fents), old(sizes), fents, sizes)
      ensures NumberedBelow(T(), repr, fents, sizes, d)
      ensures links[d].parent != NONE ==> Entered(T(), d, old(fents), fents)
      decreases repr[d], 1
    {
      ghost var f0, z0 := fents, sizes;
      assert NodeOk(links, repr, d);
      var c := if links[d].parent == NONE then (if title.Labelled? then 1 else 0) else 2;
      fents := fents[d := fents[d].(total := c)];
      var k := 0;
      while k < |links[d].entries|
        invariant 0 <= k <= |links[d].entries|
        invariant SameOutside(links, repr[d], NONE, f0, z0, fents, sizes)
        invariant DirDone(T(), repr, fents, sizes, d, k)
      {
        ghost var f1, z1 := fents, sizes;
        RecalcEntry(d, k);
        SameOutsideTrans(links, repr[d], NONE, repr[d], NONE, f0, z0, f1, z1, fents, sizes);
        k := k + 1;
      }
      ghost var f1, z1 := fents, sizes;
      FinishDir(d);
      SameOutsideTrans(links, repr[d], links[d].parent, repr[d], links[d].parent, f0, z0, f1, z1, fents, sizes);
    }

    method RecalcEntry(d: int, k: nat)
      requires Shape() && BytesPerCluster(layout) > 0
      requires 0 <= d < |links| && links[d].isDir && k < |links[d].entries|
      requires DirDone(T(), repr, fents, sizes, d, k)
      modifies `fents, `sizes
      ensures SameOutside(links, repr[d], NONE, old(fents), old(sizes), fents, sizes)
      ensures DirDone(T(), repr, fents, sizes, d, k + 1)
      decreases repr[d], 0
    {
      ghost var f1, z1 := fents, sizes;
      var e := links[d].entries[k];
      assert NodeOk(links, repr, d);
      assert EntryOk(links, repr, d, e);
      assert Within(repr, d, e);
      if links[e].isDir {
        DirRecalc(e);
      } else {
        FileRecalcDir(e);
        LeafNumbered(T(), repr, fents, sizes, e);
      }
      DirDoneStep(T(), repr, d, k, f1, z1, fents, sizes);
    }

    method FinishDir(d: int)
      requires Shape() && BytesPerCluster(layout) > 0
      requires 0 <= d < |links| && links[d].isDir
      requires links[d].parent == NONE || (0 <= links[d].parent < |links| && links[d].parent !in repr[d])
      requires DirDone(T(), repr, fents, sizes, d, |links[d].entries|)
      modifies `fents, `sizes
      ensures SameOutside(links, repr[d], links[d].parent, old(fents), old(sizes), fents, sizes)
      ensures NumberedBelow(T(), repr, fents, sizes, d)
      ensures links[d].parent != NONE ==> Entered(T(), d, old(fents), fents)
    {
      ghost var f1, z1 := fents, sizes;
      assert NodeOk(links, repr, d);
      var size := fents[d].total * 32;
      CeilDivIsDivision(size, BytesPerCluster(layout));
      sizes := sizes[d := Size(size, (size + BytesPerCluster(layout) - 1) / BytesPerCluster(layout))];
      if links[d].parent != NONE || layout.fs.FAT32? {
        FileRecalcDir(d);
      }
      DirDoneFinish(T(), repr, d, f1, z1, fents, sizes);
    }

    // -------------------------------------------------------------- placing files

    /** `file_recalc_offsize`. */
    method FileRecalcOffsize(f: int) returns (ok: bool)
      requires 0 <= f < |sizes| == |exts| && dataEnd <= layout.sectors < 0x8000_0000
      requires sizes[f].clusters * layout.spc < 0x8000_0000
      modifies `exts, `dataEnd, `dataClusterEnd, `nonemptyCnt
      ensures |exts| == old(|exts|)
      ensures forall x :: 0 <= x < |exts| && x != f ==> exts[x] == old(exts)[x]
      ensures sizes[f].bytes == 0 ==>
        && ok && exts[f].start == 0
        && dataEnd == old(dataEnd) && dataClusterEnd == old(dataClusterEnd) && nonemptyCnt == old(nonemptyCnt)
      ensures !ok ==> old(dataEnd) + sizes[f].clusters * layout.spc >= layout.sectors
      ensures ok && sizes[f].bytes != 0 ==>
        && exts[f] == Ext(old(dataClusterEnd), dataClusterEnd, old(dataEnd), dataEnd)
        && dataClusterEnd == old(dataClusterEnd) + sizes[f].clusters
        && dataEnd == old(dataEnd) + sizes[f].clusters * layout.spc < layout.sectors
        && nonemptyCnt == old(nonemptyCnt) + 1
    {
      ok := true;
      if sizes[f].bytes != 0 {
        nonemptyCnt := nonemptyCnt + 1;
        var x := exts[f].(start := dataClusterEnd);
        dataClusterEnd := dataClusterEnd + sizes[f].clusters;
        x := x.(end := dataClusterEnd);
        exts := exts[f := x];
        if dataEnd >= layout.sectors {
          return false;
        }
        var len := sizes[f].clusters * layout.spc;
        x := x.(startsect := dataEnd);
        Wrap32Id(dataEnd + len);
        dataEnd := Wrap32(dataEnd + len);
        exts := exts[f := x];
        if dataEnd >= layout.sectors {
          return false;
        }
        exts := exts[f := x.(endsect := dataEnd)];
      } else {
        exts := exts[f := exts[f].(start := 0)];
      }
    }

    method PlaceNext(k: nat) returns (ok: bool)
      requires |exts| == |sizes| == |links| && LayoutOk(layout) && Modest(layout, sizes) && ListShape(all, |links|)
      requires k < |all|
      requires PlacedUpTo(layout, sizes, exts, all, k)
      requires Counted(layout, sizes, all, k, dataEnd, dataClusterEnd, nonemptyCnt)
      modifies `exts, `dataEnd, `dataClusterEnd, `nonemptyCnt
      ensures |exts| == |links|
      ensures OnlyListed(all, old(exts), exts)
      ensures ok ==> PlacedUpTo(layout, sizes, exts, all, k + 1)
      ensures ok ==> Counted(layout, sizes, all, k + 1, dataEnd, dataClusterEnd, nonemptyCnt)
      ensures !ok ==> layout.dataStart + Used(sizes, all, k + 1) * layout.spc >= layout.sectors
    {
      ghost var before, x0 := Used(sizes, all, k), exts;
      MulMono(0, layout.clusters, layout.spc);
      MulSplit(before, sizes[all[k]].clusters, layout.spc);
      ok := FileRecalcOffsize(all[k]);
      if ok {
        PlacedUpToStep(layout, sizes, x0, exts, all, k);
      }
    }

    method PlaceAll() returns (ok: bool)
      requires |exts| == |sizes| == |links| && LayoutOk(layout) && Modest(layout, sizes) && ListShape(all, |links|)
      requires dataEnd == layout.dataStart && dataClusterEnd == 2 && nonemptyCnt == 0
      modifies `exts, `dataEnd, `dataClusterEnd, `nonemptyCnt
      ensures |exts| == |links| && OnlyListed(all, old(exts), exts)
      ensures ok ==> Placed(layout, sizes, exts, all)
      ensures ok ==> Counted(layout, sizes, all, |all|, dataEnd, dataClusterEnd, nonemptyCnt)
      ensures !ok ==> layout.dataStart + Used(sizes, all, |all|) * layout.spc >= layout.sectors
    {
      var k := 0;
      ok := true;
      while k < |all|
        invariant k <= |all| && |exts| == |links| && OnlyListed(all, old(exts), exts)
        invariant PlacedUpTo(layout, sizes, exts, all, k)
        invariant Counted(layout, sizes, all, k, dataEnd, dataClusterEnd, nonemptyCnt)
      {
        ok := PlaceNext(k);
        if !ok {
          UsedMono(sizes, all, k + 1, |all|);
          MulMono(Used(sizes, all, k + 1), Used(sizes, all, |all|), layout.spc);
          return;
        }
        k := k + 1;
      }
    }

    // -------------------------------------------------------------- the range table

    method BuildRanges() returns (table: seq<Range>)
      requires |exts| == |sizes| == |links| && ListShape(all, |links|)
      ensures table == RangesOf(layout, links, sizes, exts, all, |all|)
    {
      table := [];
      var k := 0;
      while k < |all|
        invariant k <= |all|
        invariant table == RangesOf(layout, links, sizes, exts, all, k)
      {
        var f := all[k];
        if links[f].isDir || sizes[f].bytes != 0 {
          table := table + [Range(exts[f].startsect, exts[f].startsect + sizes[f].clusters * layout.spc,
                                  exts[f].start, exts[f].end, f)];
        }
        k := k + 1;
      }
    }

    /** What `qsort` leaves: any permutation that its comparator accepts as sorted. */
    method SortRanges(table: seq<Range>) returns (sorted: seq<Range>)
      requires SortedTable(table)
      ensures SortedTable(sorted) && multiset(sorted) == multiset(table)
    {
      sorted :| SortedTable(sorted) && multiset(sorted) == multiset(table);
    }

    // -------------------------------------------------------------- the state of a drive

    function Tabs(): Tables
      reads this
    {
      Tables(fents, sizes, exts, ranges, dataEnd, dataClusterEnd, nonemptyCnt)
    }

    ghost predicate Basics()
      reads this
    {
      && Shape()
      && TablesOk(layout, links, attrs, sizes, all, fileCnt)
    }

    /** A locked drive is clean, and a clean drive carries exactly the tables of its current tree. */
    ghost predicate Valid()
      reads this
    {
      && Basics() && Unplaced(all, exts)
      && (lockcnt > 0 ==> !dirty)
      && (!dirty ==> Laid(layout, T(), repr, all, Tabs()))
    }

    /** What keeps a recalculation inside defined C behaviour: directory sizes fit an `int`, sector
        numbers can be compared by subtraction, and a FAT32 root is not empty (see `TableSize`). */
    predicate RecalcDefined()
      reads this
      requires |links| > 0
    {
      && DirsFit(T())
      && layout.sectors < 0x8000_0000
      && (layout.fs.FAT32? ==> links[ROOT].entries != [] || title.Labelled?)
    }

    lemma SizesModest(t: Tree)
      requires Shape() && FilesSized(links, sizes, BytesPerCluster(layout)) && t == T() && DirsFit(t)
      requires layout.sectors < 0x8000_0000
      requires NumberedBelow(t, repr, fents, sizes, ROOT)
      ensures Modest(layout, sizes)
    {
      forall f | 0 <= f < |sizes|
        ensures sizes[f].clusters * layout.spc < 0x8000_0000
      {
        if links[f].isDir {
          assert NumberedAt(t, fents, sizes, f);
        }
        FewSectors(layout, sizes[f].clusters, sizes[f].bytes);
      }
    }

    lemma DirsNonempty(t: Tree)
      requires Shape() && ListOk(all, |links|, layout.fs.FAT32?) && t == T()
      requires NumberedBelow(t, repr, fents, sizes, ROOT)
      requires layout.fs.FAT32? ==> links[ROOT].entries != [] || title.Labelled?
      ensures TableSortable(links, sizes, all)
    {
      forall i {:trigger NoEmptyDir(links, sizes, all[i])} | 0 <= i < |all|
        ensures NoEmptyDir(links, sizes, all[i])
      {
        var f := all[i];
        if links[f].isDir {
          assert f in all;
          assert f in repr[ROOT];
          assert NumberedAt(t, fents, sizes, f);
          assert f != ROOT ==> ParentOk(links, f);
        }
      }
    }

    method NumberAll()
      requires Basics() && RecalcDefined()
      modifies `fents, `sizes
      ensures Basics() && Modest(layout, sizes) && TableSortable(links, sizes, all)
      ensures NumberedBelow(T(), repr, fents, sizes, ROOT)
      ensures FilesKept(links, old(sizes), sizes)
    {
      DirRecalc(ROOT);
      SizesModest(T());
      DirsNonempty(T());
    }

    method IndexAll()
      requires |exts| == |sizes| == |links| && LayoutOk(layout) && ListShape(all, |links|) && Modest(layout, sizes)
      requires TableSortable(links, sizes, all)
      requires Placed(layout, sizes, exts, all)
      requires Counted(layout, sizes, all, |all|, dataEnd, dataClusterEnd, nonemptyCnt)
      modifies `ranges
      ensures AllSubstantial(links, sizes, all) ==> ranges == RangesOf(layout, links, sizes, exts, all, |all|)
    {
      var table := BuildRanges();
      RangesSortable(table);
      ranges := SortRanges(table);
      SortChangesNothing(table);
    }

    /** `vdf_drive_recalc`. */
    method Recalc() returns (ok: bool)
      requires Valid()
      requires lockcnt == 0 && dirty ==> RecalcDefined()
      modifies `fents, `sizes, `exts, `ranges, `dataEnd, `dataClusterEnd, `nonemptyCnt, `dirty
      ensures Valid()
      ensures lockcnt > 0 ==> !ok
      ensures lockcnt == 0 && !old(dirty) ==> ok
      ensures lockcnt > 0 || !old(dirty) ==> Tabs() == old(Tabs()) && dirty == old(dirty)
      ensures ok ==> !dirty
      ensures !ok ==> dirty == old(dirty)
      ensures FilesKept(links, old(sizes), sizes)
      ensures lockcnt == 0 && !ok ==> layout.dataStart + Used(sizes, all, |all|) * layout.spc >= layout.sectors
    {
      if lockcnt != 0 {
        return false;
      }
      if !dirty {
        return true;
      }
      ok := Rebuild();
    }

    /** The part of `vdf_drive_recalc` behind its checks. */
    method Rebuild() returns (ok: bool)
      requires Basics() && Unplaced(all, exts) && RecalcDefined() && dirty && lockcnt == 0
      modifies `fents, `sizes, `exts, `ranges, `dataEnd, `dataClusterEnd, `nonemptyCnt, `dirty
      ensures Valid() && dirty == !ok
      ensures FilesKept(links, old(sizes), sizes)
      ensures !ok ==> layout.dataStart + Used(sizes, all, |all|) * layout.spc >= layout.sectors
    {
      NumberAll();
      ok := PlaceAndIndex();
      dirty := !ok;
    }

    method PlaceAndIndex() returns (ok: bool)
      requires |exts| == |sizes| == |links| && LayoutOk(layout) && Unplaced(all, exts)
      requires ListShape(all, |links|) && Modest(layout, sizes) && TableSortable(links, sizes, all)
      modifies `exts, `ranges, `dataEnd, `dataClusterEnd, `nonemptyCnt
      ensures |exts| == |links| && Unplaced(all, exts)
      ensures ok ==> Placed(layout, sizes, exts, all)
      ensures ok ==> Counted(layout, sizes, all, |all|, dataEnd, dataClusterEnd, nonemptyCnt)
      ensures ok && AllSubstantial(links, sizes, all) ==> ranges == RangesOf(layout, links, sizes, exts, all, |all|)
      ensures !ok ==> layout.dataStart + Used(sizes, all, |all|) * layout.spc >= layout.sectors
    {
      dataEnd := layout.dataStart;
      nonemptyCnt := 0;
      dataClusterEnd := 2;
      ok := PlaceAll();
      if ok {
        IndexAll();
      }
    }

    lemma RangesSortable(table: seq<Range>)
      requires |exts| == |sizes| == |links| && LayoutOk(layout) && ListShape(all, |links|)
      requires layout.sectors < 0x8000_0000
      requires Placed(layout, sizes, exts, all)
      requires Counted(layout, sizes, all, |all|, dataEnd, dataClusterEnd, nonemptyCnt)
      requires TableSortable(links, sizes, all)
      requires table == RangesOf(layout, links, sizes, exts, all, |all|)
      ensures SortedTable(table)
    {
      PlacedInOrder(layout, links, sizes, exts, all, |all|);
      MulMono(0, layout.clusters, layout.spc);
      InOrderIsSorted(table, dataEnd);
    }

    lemma SortChangesNothing(table: seq<Range>)
      requires |exts| == |sizes| == |links| && LayoutOk(layout) && layout.sectors < 0x8000_0000
      requires Placed(layout, sizes, exts, all)
      requires Counted(layout, sizes, all, |all|, dataEnd, dataClusterEnd, nonemptyCnt)
      requires table == RangesOf(layout, links, sizes, exts, all, |all|)
      requires SortedTable(ranges) && multiset(ranges) == multiset(table)
      requires TableSortable(links, sizes, all)
      ensures AllSubstantial(links, sizes, all) ==> ranges == table
    {
      if AllSubstantial(links, sizes, all) {
        RangesTile(layout, links, sizes, exts, all, |all|);
        TiledTableIncreasing(layout, table, dataClusterEnd);
        PlacedInOrder(layout, links, sizes, exts, all, |all|);
        MulMono(0, layout.clusters, layout.spc);
        SortIsIdentity(table, ranges);
      }
    }

    // -------------------------------------------------------------- locking

    /** `set_drive_dirty`: the range table is dropped. */
    method SetDirty()
      modifies `dirty, `ranges
      ensures dirty
      ensures old(dirty) ==> ranges == old(ranges)
    {
      if !dirty {
        ranges := [];
        dirty := true;
      }
    }

    /** `vdf_drive_lock`. */
    method Lock() returns (ok: bool)
      requires Valid()
      requires lockcnt == 0 && dirty ==> RecalcDefined()
      modifies `lockcnt, `fents, `sizes, `exts, `ranges, `dataEnd, `dataClusterEnd, `nonemptyCnt, `dirty
      ensures Valid()
      ensures ok ==> lockcnt == old(lockcnt) + 1 && !dirty
      ensures !ok ==> lockcnt == old(lockcnt) == 0 && dirty == old(dirty)
      ensures old(lockcnt) > 0 || !old(dirty) ==> ok && Tabs() == old(Tabs())
      ensures FilesKept(links, old(sizes), sizes)
      ensures !ok ==> layout.dataStart + Used(sizes, all, |all|) * layout.spc >= layout.sectors
    {
      if lockcnt == 0 {
        ok := Recalc();
        if !ok {
          return;
        }
      }
      lockcnt := lockcnt + 1;
      ok := true;
    }

    /** `vdf_drive_unlock`. */
    method Unlock() returns (ok: bool)
      requires Valid()
      modifies `lockcnt
      ensures Valid()
      ensures ok == (old(lockcnt) > 0)
      ensures lockcnt == if ok then old(lockcnt) - 1 else 0
    {
      if lockcnt == 0 {
        return false;
      }
      lockcnt := lockcnt - 1;
      ok := true;
    }

    // -------------------------------------------------------------- changing the tree

    /** `vdf_set_drive_label`. */
    method SetLabel(next: Label) returns (ok: bool)
      requires Valid()
      modifies `title, `dirty, `ranges
      ensures Valid()
      ensures ok == (lockcnt == 0)
      ensures ok ==> title == next && dirty
      ensures !ok ==> title == old(title) && dirty == old(dirty) && ranges == old(ranges)
    {
      if lockcnt != 0 {
        return false;
      }
      title := next;
      SetDirty();
      ok := true;
    }

    /** `vdf_set_drive_serial`: no lock check; the boot records change under the reader. */
    method SetSerial(next: u32)
      requires Valid()
      modifies `serial
      ensures Valid() && serial == next
    {
      serial := next;
    }

    /** `vdf_set_file_size`, with its 32-bit rounding. */
    method SetFileSize(f: int, size: u32) returns (ok: bool)
      requires Valid() && 0 <= f < |links|
      modifies `sizes, `dirty, `ranges
      ensures Valid()
      ensures ok == (links[f].parent != NONE && attrs[f].virt && lockcnt == 0)
      ensures !ok ==> sizes == old(sizes) && dirty == old(dirty) && ranges == old(ranges)
      ensures ok ==> dirty && sizes == old(sizes)[f := Size(size, RoundedClusters(size, BytesPerCluster(layout)))]
    {
      if links[f].parent == NONE || !attrs[f].virt || lockcnt != 0 {
        return false;
      }
      var bpc := BytesPerCluster(layout);
      ClusterBytes(layout);
      RoundedIsOk(size, bpc);
      sizes := sizes[f := Size(size, RoundedClusters(size, bpc))];
      SetDirty();
      ok := true;
    }

    /** `vdf_set_file_date`. */
    method SetFileDate(f: int, stamp: Stamp) returns (ok: bool)
      requires Valid() && 0 <= f < |links|
      modifies `attrs, `dirty, `ranges
      ensures Valid()
      ensures ok == (lockcnt == 0)
      ensures ok ==> dirty && attrs == old(attrs)[f := old(attrs)[f].(stamp := stamp)]
      ensures !ok ==> attrs == old(attrs) && dirty == old(dirty) && ranges == old(ranges)
    {
      if lockcnt != 0 {
        return false;
      }
      attrs := attrs[f := attrs[f].(stamp := stamp)];
      SetDirty();
      ok := true;
    }

    /** `vdf_set_file_name`. When the tail search fails the new name stays with the old short name. */
    method SetFileName(f: int, name: Name) returns (ok: bool)
      requires Valid() && 0 <= f < |links| && NulFree(name)
      modifies `attrs, `dirty, `ranges
      ensures Valid()
      ensures ok ==
              (lockcnt == 0 && links[f].parent != NONE && FilenameValid(name) && !Clash(links, old(attrs), f, name))
      ensures ok ==> dirty && Renamed(f, name, old(attrs), attrs) && ShortRenamed(links, f, name, old(attrs), attrs)
      ensures !ok ==> attrs == old(attrs) && dirty == old(dirty) && ranges == old(ranges)
    {
      if links[f].parent == NONE || lockcnt != 0 || !FilenameValid(name) {
        return false;
      }
      assert ParentOk(links, f);
      var clash, dir, skip := FindClash(links, attrs, repr, f, name);
      if clash {
        return false;
      }
      RenameTo(f, name, dir, skip);
      ok := true;
    }

    method RenameTo(f: int, name: Name, dir: seq<Sibling>, skip: int)
      requires Valid() && lockcnt == 0 && 0 <= f < |attrs| && NulFree(name)
      modifies `attrs, `dirty, `ranges
      ensures Valid() && dirty && Renamed(f, name, old(attrs), attrs)
      ensures Rechosen(dir, skip, name, old(attrs)[f], attrs[f])
    {
      var a := NewName(attrs[f], name, dir, skip);
      RenamedKeeps(links, attrs, f, a);
      SetAttr(f, a);
    }

    method SetAttr(f: int, a: Attr)
      requires Valid() && lockcnt == 0 && 0 <= f < |attrs| && Named(attrs[f := a]) && VirtualFiles(links, attrs[f := a])
      modifies `attrs, `dirty, `ranges
      ensures Valid() && dirty && attrs == old(attrs)[f := a]
    {
      attrs := attrs[f := a];
      SetDirty();
    }

    method NewName(b: Attr, name: Name, dir: seq<Sibling>, skip: int) returns (a: Attr)
      requires NulFree(name) && NulFree(b.shortname)
      ensures NulFree(a.shortname) && a == b.(name := name, shortname := a.shortname, longName := a.longName)
      ensures Rechosen(dir, skip, name, b, a)
    {
      var found, short, long := CalcShortname(dir, skip, name);
      a := b.(name := name);
      if found {
        ChosenNulFree(dir, skip, name, short, long);
        a := a.(shortname := short, longName := long);
      } else {
        FailureNeedsManySiblings(dir, skip, BaseName(name));
      }
    }

    /** Why `create_file` refuses before touching anything. */
    predicate Refused(p: int, name: Name)
      reads this
      requires 0 <= p < |links| == |dirCnts|
    {
      || lockcnt != 0
      || !links[p].isDir
      || (!layout.fs.FAT32? && p == ROOT && dirCnts[p] == layout.rootDirCnt)
      || !FilenameValid(name)
    }

    /** Appends the record of a new file to every table. */
    method Append(p: int, isDir: bool, a: Attr, size: Size)
      requires Basics() && Unplaced(all, exts) && dirty && lockcnt == 0 && 0 <= p < |links| && links[p].isDir
      requires NulFree(a.name) && NulFree(a.shortname) && (a.virt ==> !isDir)
      requires !isDir ==> SizeOk(size, BytesPerCluster(layout))
      modifies `links, `attrs, `sizes, `exts, `fents, `dirCnts, `all, `fileCnt, `repr
      ensures Valid()
      ensures links == GrowLinks(old(links), p, isDir)
      ensures attrs == old(attrs) + [a] && sizes == old(sizes) + [size]
      ensures all == old(all) + [old(|links|)] && fileCnt == old(fileCnt) + 1
      ensures dirCnts == old(dirCnts)[p := old(dirCnts)[p] + 1] + [0]
    {
      var n := |links|;
      GrownTree(links, repr, p, isDir);
      GrownTables(layout, links, attrs, sizes, all, fileCnt, p, isDir, a, size);
      AppendSlots(p);
      AppendLinks(p, isDir, n);
      attrs, sizes := attrs + [a], sizes + [size];
    }

    method AppendLinks(p: int, isDir: bool, n: nat)
      requires 0 <= p < |links| == |repr|
      modifies `links, `repr, `all
      ensures links == GrowLinks(old(links), p, isDir) && repr == GrowRepr(old(repr), p) && all == old(all) + [n]
    {
      links, repr, all := GrowLinks(links, p, isDir), GrowRepr(repr, p), all + [n];
    }

    /** The same, said about the view of the drive. */
    method AppendToView(p: int, isDir: bool, a: Attr, size: Size)
      requires Basics() && Unplaced(all, exts) && dirty && lockcnt == 0 && 0 <= p < |links| && links[p].isDir
      requires NulFree(a.name) && NulFree(a.shortname) && (a.virt ==> !isDir)
      requires !isDir ==> SizeOk(size, BytesPerCluster(layout))
      modifies `links, `attrs, `sizes, `exts, `fents, `dirCnts, `all, `fileCnt, `repr
      ensures Valid() && V() == Appended(old(V()), p, isDir, a, size)
    {
      Append(p, isDir, a, size);
    }

    method AppendSlots(p: int)
      requires 0 <= p < |dirCnts| == |exts| == |fents|
      modifies `exts, `fents, `dirCnts, `fileCnt
      ensures exts == old(exts) + [Ext(0, 0, 0, 0)]
      ensures |fents| == |dirCnts| == old(|exts|) + 1 && fileCnt == old(fileCnt) + 1
      ensures dirCnts == old(dirCnts)[p := old(dirCnts)[p] + 1] + [0]
    {
      exts, fents := exts + [Ext(0, 0, 0, 0)], fents + [Fent(0, 0, 0)];
      dirCnts, fileCnt := dirCnts[p := dirCnts[p] + 1] + [0], fileCnt + 1;
    }

    /** The part of `create_file` behind its checks. When the tail search fails the lists are restored,
        but the counters are not. */
    method Insert(p: int, isDir: bool, a: Attr, size: Size, dir: seq<Sibling>) returns (r: int)
      requires Valid() && lockcnt == 0 && dirty
      requires 0 <= p < |links| && links[p].isDir && NulFree(a.name) && (a.virt ==> !isDir)
      requires dir == SiblingsOf(links, attrs, p)
      requires !isDir ==> SizeOk(size, BytesPerCluster(layout))
      modifies `links, `attrs, `sizes, `exts, `fents, `dirCnts, `all, `fileCnt, `repr
      ensures Valid() && Created(old(V()), V(), p, isDir, a, size)
      ensures r == if |links| == old(|links|) then NONE else old(|links|)
    {
      var ok, b := WithShortname(dir, a);
      if ok {
        r := |links|;
        InsertNamed(p, isDir, a, b, size);
      } else {
        Abandon(p, isDir, a, size);
        r := NONE;
      }
    }

    method InsertNamed(p: int, isDir: bool, ghost a: Attr, b: Attr, size: Size)
      requires Valid() && lockcnt == 0 && dirty && 0 <= p < |links| && links[p].isDir
      requires NulFree(b.name) && NulFree(b.shortname) && (b.virt ==> !isDir)
      requires !isDir ==> SizeOk(size, BytesPerCluster(layout))
      requires Inserted(SiblingsOf(links, attrs, p), a, b)
      modifies `links, `attrs, `sizes, `exts, `fents, `dirCnts, `all, `fileCnt, `repr
      ensures Valid() && Created(old(V()), V(), p, isDir, a, size) && |V().links| == |old(V()).links| + 1
    {
      ghost var before := V();
      AppendToView(p, isDir, b, size);
      AppendCreates(before, V(), p, isDir, a, b, size);
    }

    method WithShortname(dir: seq<Sibling>, a: Attr) returns (ok: bool, b: Attr)
      requires NulFree(a.name)
      ensures ok ==> Inserted(dir, a, b) && NulFree(b.shortname)
      ensures !ok ==> |dir| >= TAIL_LIMIT - 1
    {
      var short, long;
      ok, short, long := CalcShortname(dir, NONE, a.name);
      b := a.(shortname := short, longName := long);
      if ok {
        ChosenNulFree(dir, NONE, a.name, short, long);
      } else {
        FailureNeedsManySiblings(dir, NONE, BaseName(a.name));
      }
    }

    method Abandon(p: int, ghost isDir: bool, ghost a: Attr, ghost size: Size)
      requires Valid() && lockcnt == 0 && dirty && 0 <= p < |links| && |links[p].entries| >= TAIL_LIMIT - 1
      modifies `dirCnts, `fileCnt
      ensures Valid() && Created(old(V()), V(), p, isDir, a, size)
    {
      dirCnts, fileCnt := dirCnts[p := dirCnts[p] + 1], fileCnt + 1;
    }

    /** `create_file` together with the fields its callers fill in; `a` carries everything but the short name. */
    method CreateFile(p: int, isDir: bool, a: Attr, size: Size) returns (r: int)
      requires Valid() && 0 <= p < |links| && NulFree(a.name) && (a.virt ==> !isDir)
      requires !isDir ==> SizeOk(size, BytesPerCluster(layout))
      modifies `links, `attrs, `sizes, `exts, `fents, `dirCnts, `all, `fileCnt, `repr, `dirty, `ranges
      ensures Valid()
      ensures old(CreationRefused(p, a.name)) ==> V() == old(V()) && Tabs() == old(Tabs())
      ensures !old(CreationRefused(p, a.name)) ==> Created(old(V()), V(), p, isDir, a, size)
      ensures r == if |links| == old(|links|) then NONE else old(|links|)
    {
      if Refused(p, a.name) {
        return NONE;
      }
      var dir := SiblingsOf(links, attrs, p);
      var clash := FindFileSkip(dir, a.name, AnyName, NONE);
      if clash >= 0 {
        return NONE;
      }
      SetDirty();
      r := Insert(p, isDir, a, size, dir);
    }

    /** A check fails, or an entry of the directory already has the name as long or short name. */
    ghost predicate CreationRefused(p: int, name: Name)
      reads this
      requires 0 <= p < |links| == |dirCnts|
    {
      Refused(p, name) || Exists(SiblingsOf(links, attrs, p), name)
    }

    // -------------------------------------------------------------- runs

    /** The operation stays within defined behaviour and names an existing file. */
    predicate Permitted(op: Op)
      reads this
      requires |links| > 0
    {
      match op
      case DoLock => lockcnt == 0 && dirty ==> RecalcDefined()
      case DoRecalc => lockcnt == 0 && dirty ==> RecalcDefined()
      case DoSetSize(f, _) => 0 <= f < |links|
      case DoSetDate(f, _) => 0 <= f < |links|
      case DoSetName(f, name) => 0 <= f < |links| && NulFree(name)
      case DoCreate(p, isDir, a, size) =>
        0 <= p < |links| && NulFree(a.name) && (a.virt ==> !isDir)
      case _ => true
    }

    /** What operations can change, apart from the tables of a recalculation. */
    function V(): View
      reads this
    {
      View(lockcnt, dirty, title, links, attrs, sizes, all, dirCnts, fileCnt, serial)
    }

    /** What reads depend on, apart from the serial number. */
    function Frozen(): (Tables, Tree, seq<int>, nat, Label)
      reads this
    {
      (Tabs(), T(), all, fileCnt, title)
    }

    /** Any permitted operation. */
    method Perform(op: Op)
      requires Valid() && Permitted(op)
      modifies this
      ensures Valid() && Performed(layout, op, old(V()), V())
      ensures old(lockcnt) > 0 ==> Frozen() == old(Frozen())
    {
      match op {
        case DoLock => PerformLock();
        case DoUnlock => var _ := Unlock();
        case DoRecalc => PerformRecalc();
        case DoSetLabel(next) => PerformLabel(next);
        case DoSetSerial(next) => SetSerial(next);
        case DoSetSize(f, size) => PerformSize(f, size);
        case DoSetDate(f, stamp) => PerformDate(f, stamp);
        case DoSetName(f, name) => PerformName(f, name);
        case DoCreate(p, isDir, a, bytes) => PerformCreate(p, isDir, a, bytes);
      }
    }

    method PerformLock()
      requires Valid() && Permitted(DoLock)
      modifies `lockcnt, `fents, `sizes, `exts, `ranges, `dataEnd, `dataClusterEnd, `nonemptyCnt, `dirty
      ensures Valid() && Performed(layout, DoLock, old(V()), V())
      ensures old(lockcnt) > 0 ==> Frozen() == old(Frozen())
    {
      var ok := Lock();
    }

    method PerformRecalc()
      requires Valid() && Permitted(DoRecalc)
      modifies `fents, `sizes, `exts, `ranges, `dataEnd, `dataClusterEnd, `nonemptyCnt, `dirty
      ensures Valid() && Performed(layout, DoRecalc, old(V()), V())
      ensures old(lockcnt) > 0 ==> Frozen() == old(Frozen())
    {
      var ok := Recalc();
    }

    method PerformLabel(next: Label)
      requires Valid()
      modifies `title, `dirty, `ranges
      ensures Valid() && Performed(layout, DoSetLabel(next), old(V()), V())
      ensures old(lockcnt) > 0 ==> Frozen() == old(Frozen())
    {
      var ok := SetLabel(next);
    }

    method PerformSize(f: int, size: u32)
      requires Valid() && 0 <= f < |links|
      modifies `sizes, `dirty, `ranges
      ensures Valid() && Performed(layout, DoSetSize(f, size), old(V()), V())
      ensures old(lockcnt) > 0 ==> Frozen() == old(Frozen())
    {
      var ok := SetFileSize(f, size);
    }

    method PerformDate(f: int, stamp: Stamp)
      requires Valid() && 0 <= f < |links|
      modifies `attrs, `dirty, `ranges
      ensures Valid() && Performed(layout, DoSetDate(f, stamp), old(V()), V())
      ensures old(lockcnt) > 0 ==> Frozen() == old(Frozen())
    {
      var ok := SetFileDate(f, stamp);
    }

    method PerformName(f: int, name: Name)
      requires Valid() && 0 <= f < |links| && NulFree(name)
      modifies `attrs, `dirty, `ranges
      ensures Valid() && Performed(layout, DoSetName(f, name), old(V()), V())
      ensures old(lockcnt) > 0 ==> Frozen() == old(Frozen())
    {
      var ok := SetFileName(f, name);
    }

    /** `vdf_add_dir`, `vdf_add_file_virt` and `vdf_add_file_real`. */
    method PerformCreate(p: int, isDir: bool, a: Attr, bytes: u32)
      requires Valid() && 0 <= p < |links| && NulFree(a.name) && (a.virt ==> !isDir)
      modifies `links, `attrs, `sizes, `exts, `fents, `dirCnts, `all, `fileCnt, `repr, `dirty, `ranges
      ensures Valid() && Performed(layout, DoCreate(p, isDir, a, bytes), old(V()), V())
      ensures old(lockcnt) > 0 ==> Frozen() == old(Frozen())
    {
      ClusterBytes(layout);
      var size := NewSize(isDir, a.virt, bytes, BytesPerCluster(layout));
      var r := CreateFile(p, isDir, a, size);
    }

    /** One round of a run: the operation is performed and its effect recorded. */
    method PerformNext(ops: seq<Op>, ghost views: seq<View>, k: nat) returns (ghost more: seq<View>)
      requires Valid() && k < |ops| && Permitted(ops[k]) && AllPerformed(layout, ops, views, k) && views[k] == V()
      modifies this
      ensures Valid() && AllPerformed(layout, ops, more, k + 1) && more[0] == views[0] && more[k + 1] == V()
      ensures old(lockcnt) > 0 ==> Frozen() == old(Frozen()) && lockcnt == CountAfter(old(lockcnt), ops[k])
    {
      Perform(ops[k]);
      CountKept(layout, ops[k], views[k], V());
      ViewsExtend(layout, ops, views, V(), k);
      more := views + [V()];
    }

    /** Any sequence of operations, up to the first one that is not permitted. Each of the first `done` takes
        effect: `views` are the states in between. `held` tells whether the drive was locked all the time, which
        the operations alone decide; then nothing a read depends on has changed, except the serial number. */
    method Run(ops: seq<Op>) returns (done: nat, held: bool, ghost views: seq<View>)
      requires Valid()
      modifies this
      ensures Valid() && done <= |ops| && (done < |ops| ==> !Permitted(ops[done]))
      ensures AllPerformed(layout, ops, views, done) && views[0] == old(V()) && views[done] == V()
      ensures lockcnt > 0 ==> !dirty && Laid(layout, T(), repr, all, Tabs())
      ensures held == (Locks(old(lockcnt), ops, done) > 0)
      ensures held ==> lockcnt == Locks(old(lockcnt), ops, done) && Frozen() == old(Frozen())
    {
      done, held := 0, lockcnt > 0;
      views := [V()];
      while done < |ops| && Permitted(ops[done])
        invariant Valid() && done <= |ops|
        invariant AllPerformed(layout, ops, views, done) && views[0] == old(V()) && views[done] == V()
        invariant held == (Locks(old(lockcnt), ops, done) > 0)
        invariant held ==> lockcnt == Locks(old(lockcnt), ops, done) && Frozen() == old(Frozen())
      {
        views := PerformNext(ops, views, done);
        held := held && lockcnt > 0;
        done := done + 1;
      }
    }
  }

  ghost predicate Renamed(f: int, name: Name, before: seq<Attr>, after: seq<Attr>) {
    && 0 <= f < |before| == |after| && after == before[f := after[f]]
    && after[f] == before[f].(name := name, shortname := after[f].shortname, longName := after[f].longName)
  }

  /** The short name is chosen anew, unless far too many siblings make the search fail. */
  ghost predicate Rechosen(dir: seq<Sibling>, skip: int, name: Name, before: Attr, after: Attr) {
    || ShortnameChosen(dir, skip, name, after.shortname, after.longName)
    || (&& after.shortname == before.shortname && after.longName == before.longName
        && BaseName(name) != name && |dir| >= TAIL_LIMIT - 1)
  }

  /** `skip` is where `f` stands in the directory, or -1. */
  predicate Skips(es: seq<int>, f: int, skip: int) {
    if f in es then 0 <= skip < |es| && es[skip] == f else skip == -1
  }

  /** The short name of a renamed file is chosen among the other entries of its directory. */
  ghost predicate ShortRenamed(links: seq<Links>, f: int, name: Name, before: seq<Attr>, after: seq<Attr>) {
    && 0 <= f < |links| && f < |before| && f < |after| && 0 <= links[f].parent < |links|
    && exists skip {:trigger Skips(links[links[f].parent].entries, f, skip)} ::
         && Skips(links[links[f].parent].entries, f, skip)
         && Rechosen(SiblingsOf(links, before, links[f].parent), skip, name, before[f], after[f])
  }

  /** Renaming a file to the short name of an entry of its directory that has a longer name succeeds, unless some
      other entry has it as long name, and leaves two entries with the same short name. */
  lemma RenameRepeatsShortname(l: Layout, a: View, b: View, f: int, g: int, name: Name)
    requires Performed(l, DoSetName(f, name), a, b) && a.lockcnt == 0 && 0 <= f < |a.attrs| && 0 <= g < |a.attrs|
    requires f != g
    requires 0 <= f < |a.links| && a.links[f].parent != NONE && !Clash(a.links, a.attrs, f, name)
    requires Ordinary(name) && Folded(name) == name && |name| == 8 && FilenameValid(name)
    requires a.attrs[g].shortname == name
    ensures b.attrs[f].name == b.attrs[f].shortname == b.attrs[g].shortname == name
  {
    OrdinaryBase(name);
    assert name[..8] == name;
  }

  /** The file that `create_file` inserts: `a` with the short name chosen among the entries of `p`. */
  ghost predicate Inserted(dir: seq<Sibling>, a: Attr, b: Attr) {
    && b == a.(shortname := b.shortname, longName := b.longName)
    && ShortnameChosen(dir, NONE, a.name, b.shortname, b.longName)
  }

  /** Why `create_file` refuses, on a view of the drive. */
  predicate RefusedIn(l: Layout, a: View, p: int, name: Name)
    requires 0 <= p < |a.links| && p < |a.dirCnts|
  {
    || a.lockcnt != 0
    || !a.links[p].isDir
    || (!l.fs.FAT32? && p == ROOT && a.dirCnts[p] == l.rootDirCnt)
    || !FilenameValid(name)
  }

  /** The state of a drive as the operations see it. */
  datatype View = View(lockcnt: nat, dirty: bool, title: Label, links: seq<Links>, attrs: seq<Attr>, sizes: seq<Size>,
                       all: seq<int>, dirCnts: seq<nat>, fileCnt: nat, serial: u32)

  /** A recalculation changes sizes of directories only. */
  ghost predicate FilesKept(links: seq<Links>, a: seq<Size>, b: seq<Size>) {
    |a| == |b| && forall f :: 0 <= f < |links| && f < |a| && !links[f].isDir ==> b[f] == a[f]
  }

  /** What an operation does to a drive with layout `l`. */
  ghost predicate Performed(l: Layout, op: Op, a: View, b: View) {
    match op
    case DoLock =>
      && b == a.(lockcnt := b.lockcnt, dirty := b.dirty, sizes := b.sizes) && FilesKept(a.links, a.sizes, b.sizes)
      && (b.lockcnt == a.lockcnt + 1 ==> !b.dirty)
      && (b.lockcnt != a.lockcnt + 1 ==> a.lockcnt == b.lockcnt == 0 && a.dirty && b.dirty && Overfull(l, b))
      && (a.lockcnt > 0 || !a.dirty ==> b.sizes == a.sizes)
    case DoRecalc =>
      && b == a.(dirty := b.dirty, sizes := b.sizes) && FilesKept(a.links, a.sizes, b.sizes)
      && (a.lockcnt > 0 || !a.dirty ==> b == a)
      && (a.lockcnt == 0 && b.dirty ==> Overfull(l, b))
    case DoUnlock => b == a.(lockcnt := if a.lockcnt == 0 then 0 else a.lockcnt - 1)
    case DoSetLabel(next) => b == if a.lockcnt > 0 then a else a.(title := next, dirty := true)
    case DoSetSerial(next) => b == a.(serial := next)
    case DoSetSize(f, size) =>
      && 0 <= f < |a.links| && f < |a.attrs| && f < |a.sizes| && BytesPerCluster(l) > 0
      && b == if a.lockcnt > 0 || a.links[f].parent == NONE || !a.attrs[f].virt then a
              else a.(sizes := a.sizes[f := Size(size, RoundedClusters(size, BytesPerCluster(l)))], dirty := true)
    case DoSetDate(f, stamp) =>
      && 0 <= f < |a.attrs|
      && b == if a.lockcnt > 0 then a else a.(attrs := a.attrs[f := a.attrs[f].(stamp := stamp)], dirty := true)
    case DoSetName(f, name) =>
      && 0 <= f < |a.links|
      && if a.lockcnt > 0 || a.links[f].parent == NONE || !FilenameValid(name) || Clash(a.links, a.attrs, f, name)
         then b == a
         else && b == a.(attrs := b.attrs, dirty := true) && Renamed(f, name, a.attrs, b.attrs)
              && ShortRenamed(a.links, f, name, a.attrs, b.attrs)
    case DoCreate(p, isDir, attr, bytes) =>
      && 0 <= p < |a.links| && p < |a.dirCnts| && 0 < BytesPerCluster(l) < TWO32
      && if RefusedIn(l, a, p, attr.name) || Exists(SiblingsOf(a.links, a.attrs, p), attr.name) then b == a
         else Created(a, b, p, isDir, attr, NewSize(isDir, attr.virt, bytes, BytesPerCluster(l)))
  }

  /** The files do not fit into the drive. */
  ghost predicate Overfull(l: Layout, a: View) {
    l.dataStart + Used(a.sizes, a.all, |a.all|) * l.spc >= l.sectors
  }

  /** A file was appended, or, among far too many siblings, only the counters were raised. */
  ghost predicate Created(a: View, b: View, p: int, isDir: bool, attr: Attr, size: Size)
    requires 0 <= p < |a.links| && p < |a.dirCnts|
  {
    var n := |a.links|;
    && b.lockcnt == a.lockcnt && b.dirty && b.title == a.title && b.serial == a.serial
    && b.fileCnt == a.fileCnt + 1
    && b.dirCnts == a.dirCnts[p := a.dirCnts[p] + 1] + (if |b.links| == n then [] else [0])
    && if |b.links| == n then
         && b.links == a.links && b.attrs == a.attrs && b.sizes == a.sizes && b.all == a.all
         && |a.links[p].entries| >= TAIL_LIMIT - 1
       else
         && b.links == GrowLinks(a.links, p, isDir) && b.all == a.all + [n] && b.sizes == a.sizes + [size]
         && |b.attrs| == n + 1 && b.attrs[..n] == a.attrs && Inserted(SiblingsOf(a.links, a.attrs, p), attr, b.attrs[n])
  }

  /** The record of a new file at the end of every table. */
  function Appended(v: View, p: int, isDir: bool, b: Attr, size: Size): View
    requires 0 <= p < |v.links| && p < |v.dirCnts|
  {
    v.(links := GrowLinks(v.links, p, isDir), attrs := v.attrs + [b], sizes := v.sizes + [size],
       all := v.all + [|v.links|], dirCnts := v.dirCnts[p := v.dirCnts[p] + 1] + [0], fileCnt := v.fileCnt + 1)
  }

  lemma AppendCreates(v: View, w: View, p: int, isDir: bool, a: Attr, b: Attr, size: Size)
    requires 0 <= p < |v.links| == |v.attrs| == |v.dirCnts| && Inserted(SiblingsOf(v.links, v.attrs, p), a, b)
    requires v.dirty
    requires w == Appended(v, p, isDir, b, size)
    ensures Created(v, w, p, isDir, a, size) && |w.links| == |v.links| + 1
  {
  }

  /** What an operation does to a positive lock count; 0 stays 0. */
  function CountAfter(c: nat, op: Op): nat {
    if c == 0 then 0 else if op.DoLock? then c + 1 else if op.DoUnlock? then c - 1 else c
  }

  /** The lock count after `k` operations as long as it stays positive; from then on 0. */
  function Locks(count: nat, ops: seq<Op>, k: nat): nat
    requires k <= |ops|
  {
    if k == 0 then count else CountAfter(Locks(count, ops, k - 1), ops[k - 1])
  }

  lemma CountKept(l: Layout, op: Op, a: View, b: View)
    requires Performed(l, op, a, b)
    ensures a.lockcnt > 0 ==> b.lockcnt == CountAfter(a.lockcnt, op)
  {
  }

  ghost predicate PerformedAt(l: Layout, ops: seq<Op>, views: seq<View>, k: int)
    requires 0 <= k < |ops| && k + 1 < |views|
  {
    Performed(l, ops[k], views[k], views[k + 1])
  }

  /** `views` are the states before and after each of the first `n` operations. */
  ghost predicate AllPerformed(l: Layout, ops: seq<Op>, views: seq<View>, n: nat) {
    && n <= |ops| && |views| == n + 1
    && forall k {:trigger PerformedAt(l, ops, views, k)} :: 0 <= k < n ==> PerformedAt(l, ops, views, k)
  }

  lemma ViewsExtend(l: Layout, ops: seq<Op>, views: seq<View>, next: View, k: nat)
    requires AllPerformed(l, ops, views, k) && k < |ops| && Performed(l, ops[k], views[k], next)
    ensures AllPerformed(l, ops, views + [next], k + 1)
    ensures (views + [next])[0] == views[0] && (views + [next])[k + 1] == next
  {
    var more := views + [next];
    forall j {:trigger PerformedAt(l, ops, more, j)} | 0 <= j < k + 1
      ensures PerformedAt(l, ops, more, j)
    {
      if j < k {
        assert PerformedAt(l, ops, views, j);
      }
    }
  }

  lemma RenamedKeeps(links: seq<Links>, attrs: seq<Attr>, f: int, a: Attr)
    requires 0 <= f < |attrs| && Named(attrs) && VirtualFiles(links, attrs)
    requires NulFree(a.name) && NulFree(a.shortname) && a.virt == attrs[f].virt
    ensures Named(attrs[f := a]) && VirtualFiles(links, attrs[f := a])
  {
  }

  /** What the tables satisfy still holds with one more file. */
  lemma GrownTables(l: Layout, links: seq<Links>, attrs: seq<Attr>, sizes: seq<Size>, all: seq<int>, fileCnt: nat,
                    p: int, isDir: bool, a: Attr, size: Size)
    requires 0 <= p < |links| == |attrs| == |sizes| && links[p].isDir && TablesOk(l, links, attrs, sizes, all, fileCnt)
    requires NulFree(a.name) && NulFree(a.shortname) && (a.virt ==> !isDir)
    requires !isDir ==> SizeOk(size, BytesPerCluster(l))
    ensures TablesOk(l, GrowLinks(links, p, isDir), attrs + [a], sizes + [size], all + [|links|], fileCnt + 1)
  {
  }

  /** The size of a new file: a virtual file is sized in 32 bits, a real file in the width of `size_t`. */
  function NewSize(isDir: bool, virt: bool, bytes: u32, bpc: nat): (r: Size)
    requires 0 < bpc < TWO32
    ensures !isDir ==> SizeOk(r, bpc)
  {
    RoundedIsOk(bytes, bpc);
    if isDir then Size(0, 0)
    else Size(bytes, if virt then RoundedClusters(bytes, bpc) else CeilDiv(bytes, bpc))
  }

  /** The operations on a drive; a created file carries its size in bytes. */
  datatype Op =
    | DoLock | DoUnlock | DoRecalc
    | DoSetLabel(title: Label) | DoSetSerial(serial: u32)
    | DoSetSize(f: int, size: u32) | DoSetDate(f: int, stamp: Stamp) | DoSetName(f: int, name: Name)
    | DoCreate(p: int, isDir: bool, a: Attr, bytes: u32)

  lemma LoneRoot(links: seq<Links>, repr: seq<set<int>>)
    requires links == [Links(NONE, true, [])] && repr == [{ROOT}]
    ensures TreeOk(links, repr)
  {
    assert NodeOk(links, repr, ROOT);
  }

  lemma PositiveProduct(a: nat, b: nat)
    requires a > 0 && b > 0
    ensures a * b > 0
  {
  }

  method IndexIn(es: seq<int>, f: int) returns (k: int)
    ensures -1 <= k < |es|
    ensures Skips(es, f, k)
  {
    k := 0;
    while k < |es|
      invariant 0 <= k <= |es|
      invariant forall j :: 0 <= j < k ==> es[j] != f
    {
      if es[k] == f {
        return;
      }
      k := k + 1;
    }
    k := -1;
  }

  /** `size += bpc - 1; size /= bpc` in 32 bits. */
  function RoundedClusters(size: u32, bpc: nat): nat
    requires bpc > 0
  {
    Wrap32(size + bpc - 1) / bpc
  }

  lemma RoundedIsOk(size: u32, bpc: nat)
    requires 0 < bpc < TWO32
    ensures SizeOk(Size(size, RoundedClusters(size, bpc)), bpc)
  {
    CeilDivIsDivision(size, bpc);
    if size + bpc - 1 < TWO32 {
      Wrap32Id(size + bpc - 1);
    } else {
      Wrap32Id(size + bpc - 1 - TWO32);
      assert Wrap32(size + bpc - 1) == size + bpc - 1 - TWO32;
      DivMono(size + bpc - 1 - TWO32, size + bpc - 1, bpc);
    }
  }

  /** A virtual file gets exactly the clusters its size needs if and only if rounding up does not wrap;
      beyond that it gets none at all. */
  lemma RoundedExactly(size: u32, bpc: nat)
    requires 0 < bpc < TWO32
    ensures RoundedClusters(size, bpc) == CeilDiv(size, bpc) <==> size + bpc <= TWO32
    ensures size + bpc > TWO32 ==> RoundedClusters(size, bpc) == 0
  {
    CeilDivIsDivision(size, bpc);
    if size + bpc - 1 < TWO32 {
      Wrap32Id(size + bpc - 1);
    } else {
      assert Wrap32(size + bpc - 1) == size + bpc - 1 - TWO32;
      QuotientUnique(size + bpc - 1 - TWO32, bpc, 0);
    }
  }

  lemma DivMono(a: nat, b: nat, m: nat)
    requires a <= b && m > 0
    ensures a / m <= b / m
  {
    var p, q := a / m, b / m;
    assert p * m <= a && b < q * m + m;
    if q < p {
      MulMono(q + 1, p, m);
    }
  }
}
