/** The slots of a directory as a function of the file tables (libvdf/read_dir.c). */
module Directory {
  import opened Bytes
  import opened Volume
  import opened Names
  import opened LongNames
  import opened FileTree

  /** Everything that the sectors of a clean drive are computed from. */
  datatype Disk = Disk(l: Layout, t: Tree, sizes: seq<Size>, exts: seq<Ext>)

  predicate DiskShape(k: Disk) {
    |k.t.links| == |k.t.attrs| == |k.sizes| == |k.exts|
  }

  /** The start cluster an entry shows: none for an empty file or the FAT32 root. */
  function StartShown(k: Disk, f: int): nat
    requires DiskShape(k) && 0 <= f < |k.sizes|
  {
    if k.sizes[f].bytes == 0 || (k.t.links[f].parent == NONE && k.l.fs.FAT32?) then 0 else k.exts[f].start
  }

  function ShortSlotOf(k: Disk, f: int, field: Name): Slot
    requires DiskShape(k) && 0 <= f < |k.sizes|
  {
    var a, fat32, start := k.t.attrs[f], k.l.fs.FAT32?, StartShown(k, f);
    ShortSlot(
      field, a.attr,
      if fat32 then a.stamp.tenth else 0,
      if fat32 then a.stamp.mtime else 0,
      if fat32 then Word(a.stamp.mdate) else Unwritten,
      if fat32 then a.stamp.mdate else 0,
      if fat32 then (start / 0x1_0000 % 0x1_0000) as u16 else 0,
      a.stamp.mtime, a.stamp.mdate,
      (start % 0x1_0000) as u16,
      if k.t.links[f].isDir then 0 else Wrap32(k.sizes[f].bytes))
  }

  function LongBlocks(name: Name, chk: byte): (r: seq<Block>)
    ensures |r| == LongCount(name)
  {
    var n := LongCount(name);
    seq(n, e requires 0 <= e < n => Encoded(LongSlotFor(name, chk, n - e)))
  }

  /** The slots of one entry: its long-name slots, then its short slot. */
  function EntryBlocks(k: Disk, f: int): seq<Block> {
    if !(DiskShape(k) && 0 <= f < |k.sizes|) then [[]]
    else
      var a := k.t.attrs[f];
      (if k.t.vfat && a.longName then LongBlocks(a.name, ChecksumOf(NameField(a.shortname), 11)) else []) +
      [Encoded(ShortSlotOf(k, f, NameField(a.shortname)))]
  }

  lemma EntrySlotCount(k: Disk, f: int)
    requires DiskShape(k)
    ensures |EntryBlocks(k, f)| == SlotsOf(k.t, f)
  {
  }

  /** "." or ".." padded with spaces. */
  function DotField(n: nat): (r: Name)
    ensures |r| == 11
  {
    seq(11, i => if i < n then DOT else SPACE)
  }

  function HeadBlocks(k: Disk, d: int): seq<Block>
    requires DiskShape(k) && 0 <= d < |k.sizes|
  {
    var p := k.t.links[d].parent;
    if !(0 <= p < |k.sizes|) then []
    else [Encoded(ShortSlotOf(k, d, DotField(1))), Encoded(ShortSlotOf(k, p, DotField(2)))]
  }

  /** The slots of every file. */
  function AllBlocks(k: Disk): (r: seq<seq<Block>>)
    ensures |r| == |k.sizes|
  {
    seq(|k.sizes|, f => EntryBlocks(k, f))
  }

  /** The slots of the first `n` entries of a list. */
  function FlatBlocks(bs: seq<seq<Block>>, es: seq<int>, n: nat): seq<Block>
    requires n <= |es|
  {
    if n == 0 then []
    else FlatBlocks(bs, es, n - 1) + if 0 <= es[n - 1] < |bs| then bs[es[n - 1]] else []
  }

  /** `part` occurs in `whole` at position `p`. */
  ghost predicate OccursAt(whole: seq<Block>, p: nat, part: seq<Block>) {
    p + |part| <= |whole| && forall i {:trigger part[i]} :: 0 <= i < |part| ==> whole[p + i] == part[i]
  }

  ghost predicate BlocksFit(t: Tree, bs: seq<seq<Block>>) {
    forall f :: 0 <= f < |bs| ==> |bs[f]| == SlotsOf(t, f)
  }

  ghost predicate EntriesIn(es: seq<int>, n: nat) {
    forall j :: 0 <= j < |es| ==> 0 <= es[j] < n
  }

  lemma {:induction false} FlatCount(t: Tree, bs: seq<seq<Block>>, es: seq<int>, n: nat)
    requires BlocksFit(t, bs) && EntriesIn(es, |bs|) && n <= |es|
    ensures |FlatBlocks(bs, es, n)| == SlotSum(t, es, n)
  {
    if n > 0 {
      FlatCount(t, bs, es, n - 1);
    }
  }

  lemma {:induction false} FlatOccurs(t: Tree, bs: seq<seq<Block>>, es: seq<int>, n: nat, j: nat)
    requires BlocksFit(t, bs) && EntriesIn(es, |bs|) && j < n <= |es|
    ensures OccursAt(FlatBlocks(bs, es, n), SlotSum(t, es, j), bs[es[j]])
  {
    FlatCount(t, bs, es, n - 1);
    if j < n - 1 {
      FlatOccurs(t, bs, es, n - 1, j);
    }
  }

  /** All slots of a directory, in the order they appear on disk. */
  function DirBlocks(k: Disk, d: int): seq<Block>
    requires DiskShape(k) && 0 <= d < |k.sizes|
  {
    var es := k.t.links[d].entries;
    HeadBlocks(k, d) + FlatBlocks(AllBlocks(k), es, |es|)
  }

  function HeadCount(k: Disk, d: int): nat
    requires DiskShape(k) && 0 <= d < |k.sizes|
  {
    if 0 <= k.t.links[d].parent < |k.sizes| then 2 else 0
  }

  /** Where entry `j` of `d` begins on disk. */
  function DiskPos(k: Disk, d: int, j: nat): nat
    requires DiskShape(k) && 0 <= d < |k.sizes| && j <= |k.t.links[d].entries|
  {
    HeadCount(k, d) + SlotSum(k.t, k.t.links[d].entries, j)
  }

  lemma AllBlocksFit(k: Disk)
    requires DiskShape(k)
    ensures BlocksFit(k.t, AllBlocks(k))
  {
    forall f | 0 <= f < |AllBlocks(k)| ensures |AllBlocks(k)[f]| == SlotsOf(k.t, f) {
      EntrySlotCount(k, f);
    }
  }

  lemma DirCount(k: Disk, d: int)
    requires DiskShape(k) && 0 <= d < |k.sizes| && EntriesIn(k.t.links[d].entries, |k.sizes|)
    ensures |HeadBlocks(k, d)| == HeadCount(k, d)
    ensures |DirBlocks(k, d)| == DiskPos(k, d, |k.t.links[d].entries|)
  {
    AllBlocksFit(k);
    FlatCount(k.t, AllBlocks(k), k.t.links[d].entries, |k.t.links[d].entries|);
  }

  ghost predicate RendersAt(k: Disk, bs: seq<seq<Block>>, f: int)
    requires 0 <= f < |bs|
  {
    bs[f] == EntryBlocks(k, f) && |bs[f]| == SlotsOf(k.t, f)
  }

  /** `bs` holds the slots of every file. */
  ghost predicate Renders(k: Disk, bs: seq<seq<Block>>) {
    |bs| == |k.sizes| && forall f {:trigger RendersAt(k, bs, f)} :: 0 <= f < |bs| ==> RendersAt(k, bs, f)
  }

  ghost predicate HoldsEntry(k: Disk, bs: seq<seq<Block>>, dir: seq<Block>, d: int, j: int)
    requires DiskShape(k) && 0 <= d < |k.sizes| && 0 <= j < |k.t.links[d].entries|
  {
    0 <= k.t.links[d].entries[j] < |bs| && OccursAt(dir, DiskPos(k, d, j), bs[k.t.links[d].entries[j]])
  }

  /** `dir` holds the slots of the entries of `d` one after the other, behind the dot entries. */
  ghost predicate HoldsEntries(k: Disk, bs: seq<seq<Block>>, dir: seq<Block>, d: int)
    requires DiskShape(k) && 0 <= d < |k.sizes|
  {
    && |dir| == DiskPos(k, d, |k.t.links[d].entries|)
    && forall j {:trigger HoldsEntry(k, bs, dir, d, j)} ::
         0 <= j < |k.t.links[d].entries| ==> HoldsEntry(k, bs, dir, d, j)
  }

  lemma AllBlocksRender(k: Disk)
    requires DiskShape(k)
    ensures Renders(k, AllBlocks(k))
  {
    forall f {:trigger RendersAt(k, AllBlocks(k), f)} | 0 <= f < |AllBlocks(k)|
      ensures RendersAt(k, AllBlocks(k), f)
    {
      EntrySlotCount(k, f);
    }
  }

  /** The slots of each entry of a directory follow those of the entries before it. */
  lemma DirHoldsEntries(k: Disk, d: int)
    requires DiskShape(k) && 0 <= d < |k.sizes| && EntriesIn(k.t.links[d].entries, |k.sizes|)
    ensures HoldsEntries(k, AllBlocks(k), DirBlocks(k, d), d)
  {
    var es, bs, dir := k.t.links[d].entries, AllBlocks(k), DirBlocks(k, d);
    DirCount(k, d);
    forall j {:trigger HoldsEntry(k, bs, dir, d, j)} | 0 <= j < |es|
      ensures HoldsEntry(k, bs, dir, d, j)
    {
      AllBlocksFit(k);
      FlatOccurs(k.t, bs, es, |es|, j);
      OccursBehind(HeadBlocks(k, d), FlatBlocks(bs, es, |es|), SlotSum(k.t, es, j), bs[es[j]]);
    }
  }

  lemma OccursBehind(head: seq<Block>, whole: seq<Block>, p: nat, part: seq<Block>)
    requires OccursAt(whole, p, part)
    ensures OccursAt(head + whole, |head| + p, part)
  {
  }

  /** The short slot of entry `j` of directory `p`. */
  function ShortAt(k: Disk, p: int, j: nat): nat
    requires DiskShape(k) && 0 <= p < |k.sizes| && j < |k.t.links[p].entries|
  {
    DiskPos(k, p, j) + SlotsOf(k.t, k.t.links[p].entries[j]) - 1
  }

  lemma ShortBlock(k: Disk, p: int, j: nat)
    requires DiskShape(k) && 0 <= p < |k.sizes| && j < |k.t.links[p].entries|
    requires EntriesIn(k.t.links[p].entries, |k.sizes|)
    ensures
      var f, blocks := k.t.links[p].entries[j], DirBlocks(k, p);
      && ShortAt(k, p, j) < |blocks|
      && blocks[ShortAt(k, p, j)] == Encoded(ShortSlotOf(k, f, NameField(k.t.attrs[f].shortname)))
  {
    DirHoldsEntries(k, p);
    AllBlocksRender(k);
    ShortBlockIn(k, AllBlocks(k), DirBlocks(k, p), p, j);
    LastBlock(k, k.t.links[p].entries[j]);
  }

  lemma ShortBlockIn(k: Disk, bs: seq<seq<Block>>, dir: seq<Block>, p: int, j: nat)
    requires DiskShape(k) && 0 <= p < |k.sizes| && j < |k.t.links[p].entries|
    requires EntriesIn(k.t.links[p].entries, |k.sizes|)
    requires Renders(k, bs) && HoldsEntries(k, bs, dir, p)
    ensures
      var part := EntryBlocks(k, k.t.links[p].entries[j]);
      |part| > 0 && ShortAt(k, p, j) < |dir| && dir[ShortAt(k, p, j)] == part[|part| - 1]
  {
    var f := k.t.links[p].entries[j];
    assert HoldsEntry(k, bs, dir, p, j);
    assert RendersAt(k, bs, f);
    OccursLast(dir, DiskPos(k, p, j), bs[f]);
  }

  lemma OccursLast(whole: seq<Block>, p: nat, part: seq<Block>)
    requires OccursAt(whole, p, part) && |part| > 0
    ensures p + |part| <= |whole| && whole[p + |part| - 1] == part[|part| - 1]
  {
  }

  lemma LastBlock(k: Disk, f: int)
    requires DiskShape(k) && 0 <= f < |k.sizes|
    ensures |EntryBlocks(k, f)| > 0
    ensures EntryBlocks(k, f)[|EntryBlocks(k, f)| - 1] == Encoded(ShortSlotOf(k, f, NameField(k.t.attrs[f].shortname)))
  {
  }

  /** What a file or directory puts into its clusters. */
  function PayloadOf(k: Disk, f: int): Payload
    requires DiskShape(k) && 0 <= f < |k.sizes|
  {
    if k.t.links[f].isDir then DirData(DirBlocks(k, f)) else FileData(k.sizes[f].bytes, k.t.attrs[f].content)
  }
}
