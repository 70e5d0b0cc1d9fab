/** The file tree and the tables that `vdf_drive_recalc` derives from it (libvdf/file.c, libvdf/drive.c).

    A `vdf_file` pointer is an index into parallel tables, one for each group of the struct's fields:
    tree links, user attributes, size, placement and directory slots. */
module FileTree {
  import opened Bytes
  import opened Volume
  import opened Names
  import opened LongNames

  const ROOT: int := 0
  const NONE: int := -1

  /** `parent`, the directory bit and `dir.entries`. */
  datatype Links = Links(parent: int, isDir: bool, entries: seq<int>)

  /** The encoded modification stamp. */
  datatype Stamp = Stamp(mtime: u16, mdate: u16, tenth: byte)

  /** What the user sets. `content` is what the callback or the real file yields; a file that cannot
      be opened, or whose callback fails, is not `readable`. */
  datatype Attr = Attr(
    name: Name,
    shortname: Name,
    longName: bool,
    attr: byte,
    stamp: Stamp,
    virt: bool,
    content: seq<byte>,
    readable: bool)

  datatype Size = Size(bytes: nat, clusters: nat)

  datatype Ext = Ext(start: nat, end: nat, startsect: nat, endsect: nat)

  /** `fent_start`, `fent_cnt` and, for a directory, `dir.fent_cnt`. */
  datatype Fent = Fent(start: nat, extra: nat, total: nat)

  datatype Range = Range(sectstart: nat, sectend: nat, fatstart: nat, fatend: nat, file: int)

  /** The label of the drive, if it has one. */
  datatype Label = Unlabelled | Labelled(text: Name)

  /** Everything the slot numbering depends on. */
  datatype Tree = Tree(vfat: bool, labelled: bool, bpc: nat, links: seq<Links>, attrs: seq<Attr>)

  // ---------------------------------------------------------------- the shape of the tree

  ghost predicate InChild(links: seq<Links>, repr: seq<set<int>>, d: int, x: int)
    requires 0 <= d < |links|
  {
    exists k :: 0 <= k < |links[d].entries| && 0 <= links[d].entries[k] < |repr| && x in repr[links[d].entries[k]]
  }

  ghost predicate EntryOk(links: seq<Links>, repr: seq<set<int>>, d: int, c: int)
    requires |links| == |repr| && 0 <= d < |links|
  {
    && 0 <= c < |links|
    && links[c].parent == d
    && c in repr[d]
    && d !in repr[c]
  }

  ghost predicate Within(repr: seq<set<int>>, d: int, x: int) {
    0 <= d < |repr| && 0 <= x < |repr| && repr[x] <= repr[d]
  }

  ghost predicate Apart(repr: seq<set<int>>, a: int, b: int) {
    0 <= a < |repr| && 0 <= b < |repr| && repr[a] !! repr[b]
  }

  /** `repr[d]` is the set of everything at or below `d`; the subtrees of two entries are disjoint. */
  ghost predicate NodeOk(links: seq<Links>, repr: seq<set<int>>, d: int)
    requires |links| == |repr| && 0 <= d < |links|
  {
    var es := links[d].entries;
    && d in repr[d]
    && (forall x {:trigger Within(repr, d, x)} :: x in repr[d] ==> Within(repr, d, x))
    && (!links[d].isDir ==> es == [])
    && (forall k {:trigger EntryOk(links, repr, d, es[k])} :: 0 <= k < |es| ==> EntryOk(links, repr, d, es[k]))
    && (forall j, k {:trigger Apart(repr, es[j], es[k])} :: 0 <= j < k < |es| ==> Apart(repr, es[j], es[k]))
    && (forall x {:trigger InChild(links, repr, d, x)} :: x in repr[d] && x != d ==> InChild(links, repr, d, x))
  }

  ghost predicate ParentOk(links: seq<Links>, x: int)
    requires 0 <= x < |links|
  {
    0 <= links[x].parent < |links| && links[links[x].parent].isDir
  }

  ghost predicate TreeOk(links: seq<Links>, repr: seq<set<int>>) {
    && |links| == |repr| > 0
    && links[ROOT].isDir && links[ROOT].parent == NONE
    && (forall d {:trigger NodeOk(links, repr, d)} :: 0 <= d < |links| ==> NodeOk(links, repr, d))
    && (forall x :: 0 <= x < |links| ==> x in repr[ROOT])
    && (forall x {:trigger ParentOk(links, x)} :: 0 < x < |links| ==> ParentOk(links, x))
  }

  // ---------------------------------------------------------------- directory slots

  /** `fents_needed`. */
  function FentsNeeded(vfat: bool, a: Attr): nat {
    if vfat && a.longName then LongCount(a.name) else 0
  }

  function SlotsOf(t: Tree, f: int): nat {
    if 0 <= f < |t.attrs| then FentsNeeded(t.vfat, t.attrs[f]) + 1 else 1
  }

  /** The slots that the first `k` entries of a list take. */
  function SlotSum(t: Tree, es: seq<int>, k: nat): nat
    requires k <= |es|
  {
    if k == 0 then 0 else SlotSum(t, es, k - 1) + SlotsOf(t, es[k - 1])
  }

  lemma {:induction false} SlotSumMono(t: Tree, es: seq<int>, j: nat, k: nat)
    requires j <= k <= |es|
    ensures SlotSum(t, es, j) <= SlotSum(t, es, k)
    decreases k
  {
    if j < k {
      SlotSumMono(t, es, j, k - 1);
    }
  }

  /** The first slot number a directory gives to an entry: a label slot in the root, two dot entries elsewhere. */
  function SlotBase(t: Tree, d: int): nat
    requires 0 <= d < |t.links|
  {
    if t.links[d].parent == NONE then (if t.labelled then 1 else 0) else 2
  }

  ghost predicate EntryNumbered(t: Tree, fents: seq<Fent>, d: int, k: int)
    requires 0 <= d < |t.links| == |fents| && 0 <= k < |t.links[d].entries|
  {
    var e := t.links[d].entries[k];
    && 0 <= e < |fents|
    && fents[e].start == SlotBase(t, d) + SlotSum(t, t.links[d].entries, k)
    && fents[e].extra + 1 == SlotsOf(t, e)
  }

  /** The entries of directory `d` have consecutive slots from the base on, in list order, and its
      size is 32 bytes for each slot. */
  ghost predicate Numbered(t: Tree, fents: seq<Fent>, sizes: seq<Size>, d: int)
    requires 0 <= d < |t.links| == |fents| == |sizes| && t.bpc > 0
  {
    var es := t.links[d].entries;
    && fents[d].total == SlotBase(t, d) + SlotSum(t, es, |es|)
    && sizes[d].bytes == fents[d].total * 32
    && sizes[d].clusters == CeilDiv(sizes[d].bytes, t.bpc)
    && forall k :: 0 <= k < |es| ==> EntryNumbered(t, fents, d, k)
  }

  ghost predicate NumberedAt(t: Tree, fents: seq<Fent>, sizes: seq<Size>, x: int)
    requires |t.links| == |fents| == |sizes| && t.bpc > 0
  {
    0 <= x < |t.links| && (t.links[x].isDir ==> Numbered(t, fents, sizes, x))
  }

  ghost predicate AllNumbered(t: Tree, fents: seq<Fent>, sizes: seq<Size>, s: set<int>) {
    && |t.links| == |fents| == |sizes| && t.bpc > 0
    && forall x {:trigger NumberedAt(t, fents, sizes, x)} :: x in s ==> NumberedAt(t, fents, sizes, x)
  }

  /** Numbering below `e` depends only on the tables at and below `e`. */
  lemma NumberedFrame(t: Tree, repr: seq<set<int>>, e: int, fents: seq<Fent>, sizes: seq<Size>,
                      fents': seq<Fent>, sizes': seq<Size>)
    requires TreeOk(t.links, repr) && 0 <= e < |repr| && AllNumbered(t, fents, sizes, repr[e])
    requires |fents'| == |fents| && |sizes'| == |sizes|
    requires forall x :: 0 <= x < |fents| && x in repr[e] ==> fents'[x] == fents[x] && sizes'[x] == sizes[x]
    ensures AllNumbered(t, fents', sizes', repr[e])
  {
    assert NodeOk(t.links, repr, e);
    forall x {:trigger NumberedAt(t, fents', sizes', x)} | x in repr[e]
      ensures NumberedAt(t, fents', sizes', x)
    {
      assert Within(repr, e, x);
      assert NumberedAt(t, fents, sizes, x);
      if t.links[x].isDir {
        assert NodeOk(t.links, repr, x);
        var es := t.links[x].entries;
        forall k | 0 <= k < |es|
          ensures EntryNumbered(t, fents', x, k)
        {
          assert EntryOk(t.links, repr, x, es[k]);
          assert EntryNumbered(t, fents, x, k);
        }
      }
    }
  }

  ghost predicate NumberedBelow(t: Tree, repr: seq<set<int>>, fents: seq<Fent>, sizes: seq<Size>, e: int) {
    0 <= e < |repr| && AllNumbered(t, fents, sizes, repr[e])
  }

  /** The first `k` entries of `d` have their slots, and everything below them is numbered. */
  ghost predicate DirDone(t: Tree, repr: seq<set<int>>, fents: seq<Fent>, sizes: seq<Size>, d: int, k: int)
    requires 0 <= d < |t.links| == |fents| && 0 <= k <= |t.links[d].entries|
  {
    && fents[d].total == SlotBase(t, d) + SlotSum(t, t.links[d].entries, k)
    && (forall j :: 0 <= j < k ==> EntryNumbered(t, fents, d, j))
    && (forall j {:trigger NumberedBelow(t, repr, fents, sizes, t.links[d].entries[j])} :: 0 <= j < k ==>
          NumberedBelow(t, repr, fents, sizes, t.links[d].entries[j]))
  }

  /** Outside `s` the tables are unchanged, except for the slot record of `p`; file sizes never change. */
  ghost predicate SameOutside(links: seq<Links>, s: set<int>, p: int,
                              fents: seq<Fent>, sizes: seq<Size>, fents': seq<Fent>, sizes': seq<Size>) {
    && |fents| == |fents'| == |sizes| == |sizes'| == |links|
    && (forall x :: 0 <= x < |links| && x !in s && x != p ==> fents'[x] == fents[x])
    && (forall x :: 0 <= x < |links| && (x !in s || !links[x].isDir) ==> sizes'[x] == sizes[x])
  }

  /** The entry of `f` takes the next slots of its parent directory. */
  ghost predicate Entered(t: Tree, f: int, fents: seq<Fent>, fents': seq<Fent>)
    requires 0 <= f < |t.links| == |fents| == |fents'|
  {
    var p := t.links[f].parent;
    && 0 <= p < |t.links|
    && fents'[p] == fents[p].(total := fents[p].total + SlotsOf(t, f))
    && fents'[f].start == fents[p].total
    && fents'[f].extra + 1 == SlotsOf(t, f)
  }

  /** Below a file there is nothing to number. */
  lemma LeafNumbered(t: Tree, repr: seq<set<int>>, fents: seq<Fent>, sizes: seq<Size>, e: int)
    requires TreeOk(t.links, repr) && t.bpc > 0 && |fents| == |sizes| == |t.links|
    requires 0 <= e < |t.links| && !t.links[e].isDir
    ensures repr[e] == {e}
    ensures NumberedBelow(t, repr, fents, sizes, e)
  {
    assert NodeOk(t.links, repr, e);
    forall x | x in repr[e]
      ensures x == e
    {
      assert x != e ==> InChild(t.links, repr, e, x);
    }
    assert NumberedAt(t, fents, sizes, e);
  }

  /** Recalculating entry `k` leaves the numbering of entry `j` alone. */
  lemma OtherEntryKept(t: Tree, repr: seq<set<int>>, d: int, j: int, k: int,
                       fents: seq<Fent>, sizes: seq<Size>, fents': seq<Fent>, sizes': seq<Size>)
    requires TreeOk(t.links, repr) && 0 <= d < |t.links| && 0 <= j < k < |t.links[d].entries|
    requires 0 <= t.links[d].entries[k] < |repr|
    requires SameOutside(t.links, repr[t.links[d].entries[k]], d, fents, sizes, fents', sizes')
    requires EntryNumbered(t, fents, d, j) && NumberedBelow(t, repr, fents, sizes, t.links[d].entries[j])
    ensures EntryNumbered(t, fents', d, j) && NumberedBelow(t, repr, fents', sizes', t.links[d].entries[j])
  {
    var es := t.links[d].entries;
    assert NodeOk(t.links, repr, d);
    assert EntryOk(t.links, repr, d, es[j]);
    assert Apart(repr, es[j], es[k]);
    assert NodeOk(t.links, repr, es[j]);
    NumberedFrame(t, repr, es[j], fents, sizes, fents', sizes');
  }

  lemma DirDoneStep(t: Tree, repr: seq<set<int>>, d: int, k: int,
                    fents: seq<Fent>, sizes: seq<Size>, fents': seq<Fent>, sizes': seq<Size>)
    requires TreeOk(t.links, repr) && t.bpc > 0
    requires 0 <= d < |t.links| == |fents| == |fents'| == |sizes| && 0 <= k < |t.links[d].entries|
    requires DirDone(t, repr, fents, sizes, d, k)
    requires EntryOk(t.links, repr, d, t.links[d].entries[k])
    requires SameOutside(t.links, repr[t.links[d].entries[k]], d, fents, sizes, fents', sizes')
    requires Entered(t, t.links[d].entries[k], fents, fents')
    requires NumberedBelow(t, repr, fents', sizes', t.links[d].entries[k])
    ensures DirDone(t, repr, fents', sizes', d, k + 1)
  {
    var es := t.links[d].entries;
    var e := es[k];
    assert SlotSum(t, es, k + 1) == SlotSum(t, es, k) + SlotsOf(t, e);
    assert fents'[d].total == fents[d].total + SlotsOf(t, e);
    assert fents'[e].start == fents[d].total;
    assert EntryNumbered(t, fents', d, k);
    forall j | 0 <= j < k
      ensures EntryNumbered(t, fents', d, j)
    {
      assert EntryNumbered(t, fents, d, j);
      assert NumberedBelow(t, repr, fents, sizes, es[j]);
      OtherEntryKept(t, repr, d, j, k, fents, sizes, fents', sizes');
    }
    forall j {:trigger NumberedBelow(t, repr, fents', sizes', es[j])} | 0 <= j < k
      ensures NumberedBelow(t, repr, fents', sizes', es[j])
    {
      assert EntryNumbered(t, fents, d, j);
      assert NumberedBelow(t, repr, fents, sizes, es[j]);
      OtherEntryKept(t, repr, d, j, k, fents, sizes, fents', sizes');
    }
  }

  lemma SameOutsideTrans(links: seq<Links>, s: set<int>, p: int, s2: set<int>, p2: int,
                         f0: seq<Fent>, z0: seq<Size>, f1: seq<Fent>, z1: seq<Size>, f2: seq<Fent>, z2: seq<Size>)
    requires SameOutside(links, s, p, f0, z0, f1, z1) && SameOutside(links, s2, p2, f1, z1, f2, z2)
    requires s2 <= s && (p2 == p || p2 in s)
    ensures SameOutside(links, s, p, f0, z0, f2, z2)
  {
  }

  /** Once all entries are done, setting the size of `d` and entering it into its parent completes it. */
  lemma DirDoneFinish(t: Tree, repr: seq<set<int>>, d: int,
                      fents: seq<Fent>, sizes: seq<Size>, fents': seq<Fent>, sizes': seq<Size>)
    requires TreeOk(t.links, repr) && t.bpc > 0
    requires 0 <= d < |t.links| == |fents| == |fents'| == |sizes| == |sizes'| && t.links[d].isDir
    requires t.links[d].parent >= 0 ==> t.links[d].parent !in repr[d]
    requires DirDone(t, repr, fents, sizes, d, |t.links[d].entries|)
    requires sizes' == sizes[d := Size(fents[d].total * 32, CeilDiv(fents[d].total * 32, t.bpc))]
    requires forall x :: 0 <= x < |fents| && x != d && x != t.links[d].parent ==> fents'[x] == fents[x]
    requires fents'[d].total == fents[d].total
    ensures NumberedBelow(t, repr, fents', sizes', d)
  {
    var es := t.links[d].entries;
    assert NodeOk(t.links, repr, d);
    forall k | 0 <= k < |es|
      ensures EntryNumbered(t, fents', d, k) && NumberedBelow(t, repr, fents', sizes', es[k])
    {
      assert EntryOk(t.links, repr, d, es[k]);
      assert Within(repr, d, es[k]);
      assert NodeOk(t.links, repr, es[k]);
      assert EntryNumbered(t, fents, d, k);
      assert NumberedBelow(t, repr, fents, sizes, es[k]);
      NumberedFrame(t, repr, es[k], fents, sizes, fents', sizes');
    }
    assert NumberedAt(t, fents', sizes', d);
    forall x {:trigger NumberedAt(t, fents', sizes', x)} | x in repr[d] && x != d
      ensures NumberedAt(t, fents', sizes', x)
    {
      assert InChild(t.links, repr, d, x);
      var k :| 0 <= k < |es| && 0 <= es[k] < |repr| && x in repr[es[k]];
      assert NumberedBelow(t, repr, fents', sizes', es[k]);
    }
  }

  // ---------------------------------------------------------------- clusters and sectors

  function UsedBy(sizes: seq<Size>, f: int): nat {
    if 0 <= f < |sizes| && sizes[f].bytes != 0 then sizes[f].clusters else 0
  }

  /** The clusters that the first `k` files of a list take. */
  function Used(sizes: seq<Size>, fs: seq<int>, k: nat): nat
    requires k <= |fs|
  {
    if k == 0 then 0 else Used(sizes, fs, k - 1) + UsedBy(sizes, fs[k - 1])
  }

  /** Where `file_recalc_offsize` puts a file when `before` clusters are already taken. */
  ghost predicate PlacedAt(l: Layout, s: Size, x: Ext, before: nat) {
    if s.bytes == 0 then x.start == 0
    else
      && x.start == 2 + before
      && x.end == x.start + s.clusters
      && x.startsect == l.dataStart + before * l.spc
      && x.endsect == x.startsect + s.clusters * l.spc
  }

  ghost predicate PlacedIndex(l: Layout, sizes: seq<Size>, exts: seq<Ext>, all: seq<int>, k: int)
    requires 0 <= k < |all| && |sizes| == |exts|
  {
    0 <= all[k] < |sizes| && PlacedAt(l, sizes[all[k]], exts[all[k]], Used(sizes, all, k))
  }

  ghost predicate Placed(l: Layout, sizes: seq<Size>, exts: seq<Ext>, all: seq<int>) {
    && |sizes| == |exts|
    && forall k {:trigger PlacedIndex(l, sizes, exts, all, k)} :: 0 <= k < |all| ==> PlacedIndex(l, sizes, exts, all, k)
  }

  // ---------------------------------------------------------------- the range table

  predicate InTable(links: seq<Links>, sizes: seq<Size>, f: int) {
    0 <= f < |links| && 0 <= f < |sizes| && (links[f].isDir || sizes[f].bytes != 0)
  }

  function RangeOf(l: Layout, sizes: seq<Size>, exts: seq<Ext>, f: int): Range
    requires 0 <= f < |sizes| == |exts|
  {
    Range(exts[f].startsect, exts[f].startsect + sizes[f].clusters * l.spc, exts[f].start, exts[f].end, f)
  }

  /** The table for the first `k` files in list order: every directory and every non-empty file. */
  function RangesOf(l: Layout, links: seq<Links>, sizes: seq<Size>, exts: seq<Ext>, fs: seq<int>, k: nat): seq<Range>
    requires |links| == |sizes| == |exts| && k <= |fs|
  {
    if k == 0 then []
    else RangesOf(l, links, sizes, exts, fs, k - 1) + TableEntry(l, links, sizes, exts, fs[k - 1])
  }

  function TableEntry(l: Layout, links: seq<Links>, sizes: seq<Size>, exts: seq<Ext>, f: int): seq<Range>
    requires |links| == |sizes| == |exts|
  {
    if InTable(links, sizes, f) then [RangeOf(l, sizes, exts, f)] else []
  }

  predicate Nonempty(sizes: seq<Size>, f: int) {
    0 <= f < |sizes| && sizes[f].bytes != 0
  }

  function NonemptyCount(sizes: seq<Size>, fs: seq<int>, k: nat): nat
    requires k <= |fs|
  {
    if k == 0 then 0 else NonemptyCount(sizes, fs, k - 1) + if Nonempty(sizes, fs[k - 1]) then 1 else 0
  }

  function EmptyDirCount(links: seq<Links>, sizes: seq<Size>, fs: seq<int>, k: nat): nat
    requires k <= |fs|
  {
    if k == 0 then 0
    else EmptyDirCount(links, sizes, fs, k - 1) +
         if EmptyDir(links, sizes, fs[k - 1]) then 1 else 0
  }

  /** The table is allocated for the non-empty files but filled with every directory too: it overflows
      by exactly the number of empty directories in the list. */
  lemma {:induction false} TableSize(l: Layout, links: seq<Links>, sizes: seq<Size>, exts: seq<Ext>, fs: seq<int>,
                                     k: nat)
    requires |links| == |sizes| == |exts| && k <= |fs|
    ensures |RangesOf(l, links, sizes, exts, fs, k)| == NonemptyCount(sizes, fs, k) + EmptyDirCount(links, sizes, fs, k)
  {
    if k > 0 {
      TableSize(l, links, sizes, exts, fs, k - 1);
    }
  }

  lemma {:induction false} NoEmptyDirs(links: seq<Links>, sizes: seq<Size>, fs: seq<int>, k: nat)
    requires k <= |fs|
    requires forall i {:trigger Substantial(links, sizes, fs[i])} :: 0 <= i < k ==> Substantial(links, sizes, fs[i])
    ensures EmptyDirCount(links, sizes, fs, k) == 0
  {
    if k > 0 {
      NoEmptyDirs(links, sizes, fs, k - 1);
      assert Substantial(links, sizes, fs[k - 1]);
    }
  }

  ghost predicate ListShape(all: seq<int>, n: nat) {
    && Distinct(all)
    && forall k :: 0 <= k < |all| ==> 0 <= all[k] < n
  }

  /** The list of all files holds everything in creation order, the root only on FAT32, where it is the first. */
  ghost predicate ListOk(all: seq<int>, n: nat, fat32: bool) {
    && ListShape(all, n)
    && (fat32 ==> |all| > 0 && all[0] == ROOT)
    && (forall x :: 0 <= x < n ==> (x in all <==> (x != ROOT || fat32)))
  }

  predicate EmptyDir(links: seq<Links>, sizes: seq<Size>, f: int) {
    InTable(links, sizes, f) && !Nonempty(sizes, f)
  }

  /** A numbered directory is empty exactly if it is the root and has neither entries nor a label slot. */
  lemma EmptyDirIsRoot(t: Tree, repr: seq<set<int>>, fents: seq<Fent>, sizes: seq<Size>, f: int)
    requires TreeOk(t.links, repr) && NumberedBelow(t, repr, fents, sizes, ROOT) && 0 <= f < |t.links|
    ensures EmptyDir(t.links, sizes, f) <==> f == ROOT && t.links[ROOT].entries == [] && !t.labelled
  {
    if t.links[f].isDir {
      assert f in repr[ROOT];
      assert NumberedAt(t, fents, sizes, f);
      assert f != ROOT ==> ParentOk(t.links, f);
      SlotSumPositive(t, t.links[f].entries, |t.links[f].entries|);
    }
  }

  lemma {:induction false} SlotSumPositive(t: Tree, es: seq<int>, k: nat)
    requires k <= |es|
    ensures SlotSum(t, es, k) >= k
  {
    if k > 0 {
      SlotSumPositive(t, es, k - 1);
    }
  }

  lemma {:induction false} EmptyRootCount(links: seq<Links>, sizes: seq<Size>, all: seq<int>, k: nat, empty: bool)
    requires k <= |all| && Distinct(all)
    requires forall i {:trigger EmptyDir(links, sizes, all[i])} ::
               0 <= i < |all| ==> (EmptyDir(links, sizes, all[i]) <==> all[i] == ROOT && empty)
    ensures EmptyDirCount(links, sizes, all, k) == if empty && ROOT in all[..k] then 1 else 0
  {
    if k > 0 {
      EmptyRootCount(links, sizes, all, k - 1, empty);
      assert all[..k] == all[..k - 1] + [all[k - 1]];
      assert EmptyDir(links, sizes, all[k - 1]) <==> all[k - 1] == ROOT && empty;
    }
  }

  /** Exactly when the range table is large enough: the number of its entries exceeds the number of non-empty
      files by one on FAT32 drives whose root has neither entries nor a label, and by none on all others. */
  lemma TableOverflow(l: Layout, t: Tree, repr: seq<set<int>>, fents: seq<Fent>, sizes: seq<Size>, exts: seq<Ext>,
                      all: seq<int>)
    requires TreeOk(t.links, repr) && NumberedBelow(t, repr, fents, sizes, ROOT) && |exts| == |sizes|
    requires ListOk(all, |t.links|, l.fs.FAT32?)
    ensures |RangesOf(l, t.links, sizes, exts, all, |all|)| ==
            NonemptyCount(sizes, all, |all|) +
            if l.fs.FAT32? && t.links[ROOT].entries == [] && !t.labelled then 1 else 0
  {
    var empty := t.links[ROOT].entries == [] && !t.labelled;
    TableSize(l, t.links, sizes, exts, all, |all|);
    forall i {:trigger EmptyDir(t.links, sizes, all[i])} | 0 <= i < |all|
      ensures EmptyDir(t.links, sizes, all[i]) <==> all[i] == ROOT && empty
    {
      EmptyDirIsRoot(t, repr, fents, sizes, all[i]);
    }
    EmptyRootCount(t.links, sizes, all, |all|, empty);
    assert all[..|all|] == all;
  }

  /** The smallest input that overflows: a new, unlabelled FAT32 drive writes one entry into a table of none. */
  lemma NewDriveOverflows(l: Layout, t: Tree, exts: seq<Ext>)
    requires l.fs.FAT32? && t.links == [Links(NONE, true, [])] && !t.labelled && t.bpc > 0 && |exts| == 1
    ensures
      var fents, sizes := [Fent(0, 0, 0)], [Size(0, 0)];
      && NumberedBelow(t, [{ROOT}], fents, sizes, ROOT)
      && NonemptyCount(sizes, [ROOT], 1) == 0 && |RangesOf(l, t.links, sizes, exts, [ROOT], 1)| == 1
  {
    var fents, sizes := [Fent(0, 0, 0)], [Size(0, 0)];
    assert NumberedAt(t, fents, sizes, ROOT);
    assert RangesOf(l, t.links, sizes, exts, [ROOT], 0) == [];
    assert TableEntry(l, t.links, sizes, exts, ROOT) == [RangeOf(l, sizes, exts, ROOT)];
    assert NonemptyCount(sizes, [ROOT], 0) == 0;
  }

  ghost predicate RangeChained(rs: seq<Range>, i: nat)
    requires i + 1 < |rs|
  {
    rs[i].fatend == rs[i + 1].fatstart && rs[i].sectend == rs[i + 1].sectstart
  }

  ghost predicate RangeOk(l: Layout, r: Range) {
    && 2 <= r.fatstart < r.fatend
    && r.sectstart == l.dataStart + (r.fatstart - 2) * l.spc
    && r.sectend == l.dataStart + (r.fatend - 2) * l.spc
  }

  /** The ranges tile clusters [2, end) without gap or overlap. */
  ghost predicate RangesTiled(l: Layout, rs: seq<Range>, end: nat) {
    && (forall i {:trigger RangeOk(l, rs[i])} :: 0 <= i < |rs| ==> RangeOk(l, rs[i]))
    && (if |rs| == 0 then end == 2 else rs[0].fatstart == 2 && rs[|rs| - 1].fatend == end)
    && (forall i {:trigger RangeChained(rs, i)} :: 0 <= i && i + 1 < |rs| ==> RangeChained(rs, i))
  }

  lemma ExtendTiled(l: Layout, rs: seq<Range>, r: Range, end: nat)
    requires RangesTiled(l, rs, end) && RangeOk(l, r) && r.fatstart == end
    ensures RangesTiled(l, rs + [r], r.fatend)
  {
    var ts := rs + [r];
    forall i {:trigger RangeChained(ts, i)} | 0 <= i && i + 1 < |ts|
      ensures RangeChained(ts, i)
    {
      if i + 1 < |rs| {
        assert RangeChained(rs, i);
      } else {
        assert RangeOk(l, rs[i]);
      }
    }
  }

  lemma PlacedRangeOk(l: Layout, sizes: seq<Size>, exts: seq<Ext>, f: int, before: nat)
    requires 0 <= f < |sizes| == |exts| && PlacedAt(l, sizes[f], exts[f], before)
    requires sizes[f].bytes != 0 && sizes[f].clusters > 0
    ensures RangeOk(l, RangeOf(l, sizes, exts, f))
    ensures RangeOf(l, sizes, exts, f).fatstart == 2 + before
    ensures RangeOf(l, sizes, exts, f).fatend == 2 + before + UsedBy(sizes, f)
  {
    MulSplit(before, sizes[f].clusters, l.spc);
  }

  /** A table entry has something to show for it: no empty directory, no empty allocation. */
  ghost predicate Substantial(links: seq<Links>, sizes: seq<Size>, f: int) {
    InTable(links, sizes, f) ==> sizes[f].bytes != 0 && sizes[f].clusters > 0
  }

  lemma RangesTileStep(l: Layout, links: seq<Links>, sizes: seq<Size>, exts: seq<Ext>, rs: seq<Range>, f: int,
                       before: nat)
    requires |links| == |sizes| == |exts| && 0 <= f < |sizes| && Substantial(links, sizes, f)
    requires RangesTiled(l, rs, 2 + before) && PlacedAt(l, sizes[f], exts[f], before)
    ensures RangesTiled(l, rs + TableEntry(l, links, sizes, exts, f), 2 + before + UsedBy(sizes, f))
  {
    if InTable(links, sizes, f) {
      PlacedRangeOk(l, sizes, exts, f, before);
      ExtendTiled(l, rs, RangeOf(l, sizes, exts, f), 2 + before);
    } else {
      assert rs + [] == rs;
    }
  }

  /** A placed list without empty directories and without empty allocations gives a tiling table. */
  lemma {:induction false} RangesTile(l: Layout, links: seq<Links>, sizes: seq<Size>, exts: seq<Ext>, all: seq<int>,
                                      k: nat)
    requires |links| == |sizes| == |exts| && k <= |all| && Placed(l, sizes, exts, all)
    requires forall i {:trigger Substantial(links, sizes, all[i])} ::
               0 <= i < |all| ==> Substantial(links, sizes, all[i])
    ensures RangesTiled(l, RangesOf(l, links, sizes, exts, all, k), 2 + Used(sizes, all, k))
  {
    if k > 0 {
      RangesTile(l, links, sizes, exts, all, k - 1);
      assert PlacedIndex(l, sizes, exts, all, k - 1);
      assert Substantial(links, sizes, all[k - 1]);
      RangesTileStep(l, links, sizes, exts, RangesOf(l, links, sizes, exts, all, k - 1), all[k - 1],
                     Used(sizes, all, k - 1));
    }
  }

  ghost predicate AllSubstantial(links: seq<Links>, sizes: seq<Size>, all: seq<int>) {
    forall i {:trigger Substantial(links, sizes, all[i])} :: 0 <= i < |all| ==> Substantial(links, sizes, all[i])
  }

  /** Everything `vdf_drive_recalc` leaves behind on a drive with layout `l` and tree `t`. */
  ghost predicate Laid(l: Layout, t: Tree, repr: seq<set<int>>, all: seq<int>, s: Tables)
  {
    && |t.links| == |s.sizes| == |s.exts|
    && NumberedBelow(t, repr, s.fents, s.sizes, ROOT)
    && Placed(l, s.sizes, s.exts, all)
    && s.dataClusterEnd == 2 + Used(s.sizes, all, |all|)
    && s.dataEnd == l.dataStart + Used(s.sizes, all, |all|) * l.spc
    && (s.dataEnd < l.sectors || Used(s.sizes, all, |all|) == 0)
    && s.nonemptyCnt == NonemptyCount(s.sizes, all, |all|)
    && (AllSubstantial(t.links, s.sizes, all) ==> s.ranges == RangesOf(l, t.links, s.sizes, s.exts, all, |all|))
  }

  /** The tables and counters that a recalculation fills in. */
  datatype Tables = Tables(fents: seq<Fent>, sizes: seq<Size>, exts: seq<Ext>, ranges: seq<Range>,
                           dataEnd: nat, dataClusterEnd: nat, nonemptyCnt: nat)

  ghost predicate PlacedUpTo(l: Layout, sizes: seq<Size>, exts: seq<Ext>, all: seq<int>, k: int)
    requires 0 <= k <= |all|
  {
    && |sizes| == |exts|
    && forall j {:trigger PlacedIndex(l, sizes, exts, all, j)} :: 0 <= j < k ==> PlacedIndex(l, sizes, exts, all, j)
  }

  ghost predicate Distinct(all: seq<int>) {
    forall j, k {:trigger all[j], all[k]} :: 0 <= j < k < |all| ==> all[j] != all[k]
  }

  lemma PlacedUpToStep(l: Layout, sizes: seq<Size>, exts: seq<Ext>, exts': seq<Ext>, all: seq<int>, k: int)
    requires 0 <= k < |all| && Distinct(all) && PlacedUpTo(l, sizes, exts, all, k)
    requires 0 <= all[k] < |sizes| && |exts'| == |exts|
    requires forall x :: 0 <= x < |exts| && x != all[k] ==> exts'[x] == exts[x]
    requires PlacedAt(l, sizes[all[k]], exts'[all[k]], Used(sizes, all, k))
    ensures PlacedUpTo(l, sizes, exts', all, k + 1)
  {
    forall j {:trigger PlacedIndex(l, sizes, exts', all, j)} | 0 <= j < k + 1
      ensures PlacedIndex(l, sizes, exts', all, j)
    {
      if j < k {
        assert PlacedIndex(l, sizes, exts, all, j);
        assert all[j] != all[k];
      }
    }
  }

  lemma {:induction false} UsedMono(sizes: seq<Size>, fs: seq<int>, j: nat, k: nat)
    requires j <= k <= |fs|
    ensures Used(sizes, fs, j) <= Used(sizes, fs, k)
    decreases k
  {
    if j < k {
      UsedMono(sizes, fs, j, k - 1);
    }
  }

  // ---------------------------------------------------------------- sizes

  /** The clusters of a file: rounded up, unless adding the rounding term wraps 32 bits. */
  ghost predicate SizeOk(s: Size, bpc: nat)
    requires bpc > 0
  {
    && s.bytes < TWO32
    && s.clusters <= CeilDiv(s.bytes, bpc)
    && (s.bytes + bpc <= TWO32 ==> s.clusters == CeilDiv(s.bytes, bpc))
  }

  lemma FewSectors(l: Layout, clusters: nat, bytes: nat)
    requires LayoutOk(l) && bytes < TWO32 && clusters <= CeilDiv(bytes, BytesPerCluster(l))
    ensures clusters * l.spc < 0x8000_0000
  {
    var bpc := BytesPerCluster(l);
    assert SectorSize(l.bps);
    CeilDivBounds(bytes, bpc);
    MulMono(clusters, CeilDiv(bytes, bpc), bpc);
    MulMono(l.spc, 512, l.bps);
    calc {
      clusters * bpc;
      clusters * (l.bps * l.spc);
      (clusters * l.spc) * l.bps;
    }
    if clusters * l.spc >= 0x8000_0000 {
      MulMono(0x8000_0000, clusters * l.spc, l.bps);
    }
  }

  // ---------------------------------------------------------------- sorting

  /** `cmp_filerange`: a 32-bit unsigned difference returned as an `int`. */
  function CmpFilerange(a: Range, b: Range): int {
    var d := Wrap32(a.sectstart - b.sectstart);
    if d < 0x8000_0000 then d else d - TWO32
  }

  predicate Before(a: Range, b: Range) {
    a.sectstart < b.sectstart
  }

  /** What `qsort` may return. */
  predicate SortedTable(rs: seq<Range>) {
    forall i, j {:trigger CmpFilerange(rs[i], rs[j])} :: 0 <= i < j < |rs| ==> CmpFilerange(rs[i], rs[j]) <= 0
  }

  ghost predicate StrictlyIncreasing(rs: seq<Range>) {
    forall i, j {:trigger Before(rs[i], rs[j])} :: 0 <= i < j < |rs| ==> Before(rs[i], rs[j])
  }

  /** The subtracting comparator puts two ranges into the right order exactly if they are at most 2^31 sectors apart. */
  lemma ComparatorExactly(a: Range, b: Range)
    requires a.sectstart < b.sectstart < TWO32
    ensures CmpFilerange(a, b) <= 0 <==> b.sectstart - a.sectstart <= 0x8000_0000
  {
    assert Wrap32(a.sectstart - b.sectstart) == a.sectstart - b.sectstart + TWO32;
  }

  /** So it accepts a table in increasing order exactly if the whole table spans at most 2^31 sectors. */
  lemma SortedExactly(rs: seq<Range>)
    requires StrictlyIncreasing(rs) && rs != [] && rs[|rs| - 1].sectstart < TWO32
    ensures SortedTable(rs) <==> rs[|rs| - 1].sectstart - rs[0].sectstart <= 0x8000_0000
  {
    var n := |rs| - 1;
    if n > 0 {
      assert Before(rs[0], rs[n]);
      ComparatorExactly(rs[0], rs[n]);
    }
    if rs[n].sectstart - rs[0].sectstart <= 0x8000_0000 {
      forall i, j {:trigger CmpFilerange(rs[i], rs[j])} | 0 <= i < j < |rs|
        ensures CmpFilerange(rs[i], rs[j]) <= 0
      {
        assert Before(rs[i], rs[j]);
        assert i > 0 ==> Before(rs[0], rs[i]);
        assert j < n ==> Before(rs[j], rs[n]);
        ComparatorExactly(rs[i], rs[j]);
      }
    } else {
      assert n > 0 ==> CmpFilerange(rs[0], rs[n]) > 0;
    }
  }

  lemma {:induction false} TiledIncreasing(l: Layout, rs: seq<Range>, end: nat, i: nat, j: nat)
    requires RangesTiled(l, rs, end) && l.spc > 0 && i < j < |rs|
    ensures rs[i].sectend <= rs[j].sectstart && rs[i].fatend <= rs[j].fatstart
    ensures rs[i].sectstart < rs[j].sectstart
    decreases j
  {
    assert RangeChained(rs, j - 1);
    RangeGrows(l, rs[i]);
    if i < j - 1 {
      TiledIncreasing(l, rs, end, i, j - 1);
      RangeGrows(l, rs[j - 1]);
    }
  }

  lemma RangeGrows(l: Layout, r: Range)
    requires RangeOk(l, r) && l.spc > 0
    ensures l.dataStart <= r.sectstart < r.sectend
    ensures r.sectend - r.sectstart == (r.fatend - r.fatstart) * l.spc
  {
    MulSplit(r.fatstart - 2, r.fatend - r.fatstart, l.spc);
    MulMono(1, r.fatend - r.fatstart, l.spc);
    MulMono(0, r.fatstart - 2, l.spc);
  }

  /** A strictly increasing table is the only sorted permutation of itself, so sorting changes nothing. */
  lemma {:induction false} SortIsIdentity(rs: seq<Range>, ts: seq<Range>)
    requires StrictlyIncreasing(rs) && SortedTable(ts) && multiset(rs) == multiset(ts)
    requires forall i :: 0 <= i < |rs| ==> rs[i].sectstart < 0x8000_0000
    ensures ts == rs
  {
    assert |rs| == |multiset(rs)| == |multiset(ts)| == |ts|;
    if |rs| > 0 {
      var n := |rs| - 1;
      LastAgrees(rs, ts);
      DropLast(rs);
      DropLast(ts);
      SortIsIdentity(rs[..n], ts[..n]);
    }
  }

  lemma DropLast(rs: seq<Range>)
    requires rs != []
    ensures var n := |rs| - 1;
            && rs == rs[..n] + [rs[n]]
            && multiset(rs[..n]) == multiset(rs) - multiset{rs[n]}
            && (SortedTable(rs) ==> SortedTable(rs[..n]))
            && (StrictlyIncreasing(rs) ==> StrictlyIncreasing(rs[..n]))
  {
    var n := |rs| - 1;
    var ts := rs[..n];
    assert rs == ts + [rs[n]];
    forall i, j {:trigger CmpFilerange(ts[i], ts[j])} | SortedTable(rs) && 0 <= i < j < n
      ensures CmpFilerange(ts[i], ts[j]) <= 0
    {
      assert CmpFilerange(rs[i], rs[j]) <= 0;
    }
    forall i, j {:trigger Before(ts[i], ts[j])} | StrictlyIncreasing(rs) && 0 <= i < j < n
      ensures Before(ts[i], ts[j])
    {
      assert Before(rs[i], rs[j]);
    }
  }

  lemma LastAgrees(rs: seq<Range>, ts: seq<Range>)
    requires StrictlyIncreasing(rs) && SortedTable(ts) && multiset(rs) == multiset(ts)
    requires forall i :: 0 <= i < |rs| ==> rs[i].sectstart < 0x8000_0000
    requires |rs| == |ts| > 0
    ensures ts[|ts| - 1] == rs[|rs| - 1]
  {
    var n := |rs| - 1;
    assert rs[n] in multiset(ts) && ts[n] in multiset(rs);
    var i :| 0 <= i < |ts| && ts[i] == rs[n];
    var j :| 0 <= j < |rs| && rs[j] == ts[n];
    assert j < n ==> Before(rs[j], rs[n]);
    assert i < n ==> CmpFilerange(ts[i], ts[n]) <= 0;
  }

  // ---------------------------------------------------------------- the table is already sorted

  ghost predicate NoEmptyDir(links: seq<Links>, sizes: seq<Size>, f: int) {
    InTable(links, sizes, f) ==> sizes[f].bytes != 0
  }

  ghost predicate InOrder(rs: seq<Range>, top: nat) {
    && (forall i :: 0 <= i < |rs| ==> rs[i].sectstart <= top)
    && (forall i, j {:trigger NotAfter(rs[i], rs[j])} :: 0 <= i < j < |rs| ==> NotAfter(rs[i], rs[j]))
  }

  predicate NotAfter(a: Range, b: Range) {
    a.sectstart <= b.sectstart
  }

  lemma InOrderExtend(rs: seq<Range>, top: nat, more: seq<Range>, top': nat)
    requires InOrder(rs, top) && top <= top' && |more| <= 1
    requires |more| == 1 ==> more[0].sectstart == top
    ensures InOrder(rs + more, top')
  {
    var ts := rs + more;
    forall i, j {:trigger NotAfter(ts[i], ts[j])} | 0 <= i < j < |ts|
      ensures NotAfter(ts[i], ts[j])
    {
      assert j < |rs| ==> NotAfter(rs[i], rs[j]);
    }
  }

  lemma {:induction false} PlacedInOrder(l: Layout, links: seq<Links>, sizes: seq<Size>, exts: seq<Ext>, all: seq<int>,
                                         k: nat)
    requires |links| == |sizes| == |exts| && k <= |all| && Placed(l, sizes, exts, all)
    requires forall i {:trigger NoEmptyDir(links, sizes, all[i])} :: 0 <= i < |all| ==> NoEmptyDir(links, sizes, all[i])
    ensures InOrder(RangesOf(l, links, sizes, exts, all, k), l.dataStart + Used(sizes, all, k) * l.spc)
  {
    if k > 0 {
      PlacedInOrder(l, links, sizes, exts, all, k - 1);
      var f := all[k - 1];
      assert PlacedIndex(l, sizes, exts, all, k - 1);
      assert NoEmptyDir(links, sizes, f);
      MulMono(Used(sizes, all, k - 1), Used(sizes, all, k), l.spc);
      InOrderExtend(RangesOf(l, links, sizes, exts, all, k - 1), l.dataStart + Used(sizes, all, k - 1) * l.spc,
                    TableEntry(l, links, sizes, exts, f), l.dataStart + Used(sizes, all, k) * l.spc);
    }
  }

  lemma InOrderIsSorted(rs: seq<Range>, top: nat)
    requires InOrder(rs, top) && top < 0x8000_0000
    ensures SortedTable(rs)
  {
    forall i, j {:trigger CmpFilerange(rs[i], rs[j])} | 0 <= i < j < |rs|
      ensures CmpFilerange(rs[i], rs[j]) <= 0
    {
      assert NotAfter(rs[i], rs[j]);
    }
  }

  lemma TiledTableIncreasing(l: Layout, rs: seq<Range>, end: nat)
    requires RangesTiled(l, rs, end) && l.spc > 0
    ensures StrictlyIncreasing(rs)
  {
    forall i, j {:trigger Before(rs[i], rs[j])} | 0 <= i < j < |rs|
      ensures Before(rs[i], rs[j])
    {
      TiledIncreasing(l, rs, end, i, j);
    }
  }

  // ---------------------------------------------------------------- the layout is a function of the tree

  ghost predicate FileSizesAgree(links: seq<Links>, a: seq<Size>, b: seq<Size>) {
    |a| == |b| == |links| && forall f :: 0 <= f < |links| && !links[f].isDir ==> a[f] == b[f]
  }

  lemma SizesDetermined(t: Tree, repr: seq<set<int>>, f1: seq<Fent>, z1: seq<Size>, f2: seq<Fent>, z2: seq<Size>)
    requires TreeOk(t.links, repr) && FileSizesAgree(t.links, z1, z2)
    requires NumberedBelow(t, repr, f1, z1, ROOT) && NumberedBelow(t, repr, f2, z2, ROOT)
    ensures z1 == z2
  {
    forall f | 0 <= f < |z1|
      ensures z1[f] == z2[f]
    {
      if t.links[f].isDir {
        assert NumberedAt(t, f1, z1, f) && NumberedAt(t, f2, z2, f);
      }
    }
  }

  /** Two numberings give every entry of every directory the same slots. */
  lemma SlotsDetermined(t: Tree, repr: seq<set<int>>, f1: seq<Fent>, z1: seq<Size>, f2: seq<Fent>, z2: seq<Size>,
                        d: int, k: nat)
    requires TreeOk(t.links, repr) && 0 <= d < |t.links| && t.links[d].isDir && k < |t.links[d].entries|
    requires NumberedBelow(t, repr, f1, z1, ROOT) && NumberedBelow(t, repr, f2, z2, ROOT)
    ensures
      var e := t.links[d].entries[k];
      0 <= e < |f1| == |f2| && f1[e].start == f2[e].start && f1[e].extra == f2[e].extra && f1[d].total == f2[d].total
  {
    assert NumberedAt(t, f1, z1, d) && NumberedAt(t, f2, z2, d);
    assert EntryNumbered(t, f1, d, k) && EntryNumbered(t, f2, d, k);
  }

  lemma {:induction false} RangesDetermined(l: Layout, links: seq<Links>, sizes: seq<Size>, x1: seq<Ext>, x2: seq<Ext>,
                                            all: seq<int>, k: nat)
    requires |links| == |sizes| && k <= |all| && AllSubstantial(links, sizes, all)
    requires Placed(l, sizes, x1, all) && Placed(l, sizes, x2, all)
    ensures RangesOf(l, links, sizes, x1, all, k) == RangesOf(l, links, sizes, x2, all, k)
  {
    if k > 0 {
      RangesDetermined(l, links, sizes, x1, x2, all, k - 1);
      assert PlacedIndex(l, sizes, x1, all, k - 1) && PlacedIndex(l, sizes, x2, all, k - 1);
      assert Substantial(links, sizes, all[k - 1]);
    }
  }

  /** Recalculating a tree can only give one layout: the tables of a clean drive are those that would be
      computed again from its current tree. */
  lemma LayoutDetermined(l: Layout, t: Tree, repr: seq<set<int>>, all: seq<int>, s1: Tables, s2: Tables)
    requires TreeOk(t.links, repr) && Laid(l, t, repr, all, s1) && Laid(l, t, repr, all, s2)
    requires FileSizesAgree(t.links, s1.sizes, s2.sizes)
    ensures s1.sizes == s2.sizes && s1.nonemptyCnt == s2.nonemptyCnt
    ensures s1.dataEnd == s2.dataEnd && s1.dataClusterEnd == s2.dataClusterEnd
    ensures AllSubstantial(t.links, s1.sizes, all) ==> s1.ranges == s2.ranges
    ensures forall i :: 0 <= i < |all| ==> SamePlace(s1, s2, all[i])
  {
    SizesDetermined(t, repr, s1.fents, s1.sizes, s2.fents, s2.sizes);
    if AllSubstantial(t.links, s1.sizes, all) {
      RangesDetermined(l, t.links, s1.sizes, s1.exts, s2.exts, all, |all|);
    }
    forall i | 0 <= i < |all|
      ensures SamePlace(s1, s2, all[i])
    {
      assert PlacedIndex(l, s1.sizes, s1.exts, all, i) && PlacedIndex(l, s1.sizes, s2.exts, all, i);
    }
  }

  /** File `f` has the same start and, unless it is empty, the same clusters and sectors. */
  ghost predicate SamePlace(s1: Tables, s2: Tables, f: int) {
    && 0 <= f < |s1.sizes| && |s1.exts| == |s2.exts| == |s1.sizes|
    && if s1.sizes[f].bytes == 0 then s1.exts[f].start == s2.exts[f].start else s1.exts[f] == s2.exts[f]
  }
}
