/** How a host reads directories: decoding slots, and what they say about the entries of a directory. */
module HostDirs {
  import opened Bytes
  import opened Volume
  import opened Names
  import opened LongNames
  import opened FileTree
  import opened Directory
  import opened DirReader
  import opened HostReader

  // ---------------------------------------------------------------- the host's view of directories

  /** The start cluster that slot `q` of a directory names. */
  function SlotStart(fs: FileSys, dir: seq<byte>, q: nat): nat {
    WordAt(dir, 32 * q + 26) + if fs.FAT32? then 0x1_0000 * WordAt(dir, 32 * q + 20) else 0
  }

  function SlotSize(dir: seq<byte>, q: nat): nat {
    DwordAt(dir, 32 * q + 28)
  }

  function SlotName(dir: seq<byte>, q: nat): Name {
    seq(11, r requires 0 <= r => ByteAt(dir, 32 * q + r))
  }

  /** The root directory: its own region, or on FAT32 the chain from cluster 2, where it always starts. */
  function RootBytes(raw: seq<byte>, l: Layout): seq<byte> {
    if l.fs.FAT32? then ChainBytes(raw, l, 2)
    else if SectorOffset(l, l.rootStart) <= SectorOffset(l, l.dataStart) <= |raw|
    then raw[SectorOffset(l, l.rootStart)..SectorOffset(l, l.dataStart)]
    else []
  }

  /** The directory reached from the root through the slots `qs`. */
  function DirBytesAt(raw: seq<byte>, l: Layout, qs: seq<nat>): seq<byte>
    decreases |qs|
  {
    if qs == [] then RootBytes(raw, l)
    else ChainBytes(raw, l, SlotStart(l.fs, DirBytesAt(raw, l, qs[..|qs| - 1]), qs[|qs| - 1]))
  }

  /** The contents of the file that slot `q` of a directory names. */
  function FileBytes(raw: seq<byte>, l: Layout, dir: seq<byte>, q: nat): seq<byte> {
    var size := SlotSize(dir, q);
    var chain := ChainBytes(raw, l, SlotStart(l.fs, dir, q));
    if size == 0 then [] else if size <= |chain| then chain[..size] else chain
  }

  // ---------------------------------------------------------------- slots

  /** Slot `q` lies inside the bytes of a directory. */
  predicate SlotInside(bytes: seq<byte>, q: nat) {
    32 * q + 32 <= |bytes|
  }

  ghost predicate SlotShown(bytes: seq<byte>, q: nat, s: Slot) {
    forall r {:trigger SlotCell(s, r)} :: 0 <= r < 32 ==> Shows(SlotCell(s, r), ByteAt(bytes, 32 * q + r))
  }

  lemma SlotWord(bytes: seq<byte>, q: nat, s: Slot, r: nat, w: u16)
    requires SlotShown(bytes, q, s) && r + 2 <= 32
    requires SlotCell(s, r) == Is(LeByte(w as int, 0)) && SlotCell(s, r + 1) == Is(LeByte(w as int, 1))
    ensures WordAt(bytes, 32 * q + r) == w as int
  {
    Le16RoundTrip(w);
  }

  lemma SlotDword(bytes: seq<byte>, q: nat, s: Slot, w: u32)
    requires SlotShown(bytes, q, s) && s.ShortSlot? && s.size == w
    ensures DwordAt(bytes, 32 * q + 28) == w
  {
    assert SlotCell(s, 28) == Is(LeByte(w, 0));
    assert SlotCell(s, 29) == Is(LeByte(w, 1));
    assert SlotCell(s, 30) == Is(LeByte(w, 2));
    assert SlotCell(s, 31) == Is(LeByte(w, 3));
    Le32RoundTrip(w);
  }

  lemma SlotNameShown(bytes: seq<byte>, q: nat, s: Slot)
    requires SlotShown(bytes, q, s) && s.ShortSlot? && |s.name| == 11
    ensures SlotName(bytes, q) == s.name
  {
    forall r | 0 <= r < 11
      ensures SlotName(bytes, q)[r] == s.name[r]
    {
      assert SlotCell(s, r) == Is(s.name[r]);
    }
  }

  lemma SlotClusters(bytes: seq<byte>, q: nat, s: Slot)
    requires SlotShown(bytes, q, s) && s.ShortSlot?
    ensures WordAt(bytes, 32 * q + 26) == s.cluster as int && WordAt(bytes, 32 * q + 20) == s.clusterHigh as int
  {
    SlotWord(bytes, q, s, 26, s.cluster);
    SlotWord(bytes, q, s, 20, s.clusterHigh);
  }

  lemma HalvesJoin(start: nat)
    requires start < TWO32
    ensures start % 0x1_0000 + 0x1_0000 * (start / 0x1_0000 % 0x1_0000) == start
  {
  }

  lemma StartDecoded(fs: FileSys, bytes: seq<byte>, q: nat, start: nat)
    requires start < if fs.FAT32? then TWO32 else 0x1_0000
    requires WordAt(bytes, 32 * q + 26) == start % 0x1_0000
    requires fs.FAT32? ==> WordAt(bytes, 32 * q + 20) == start / 0x1_0000 % 0x1_0000
    ensures SlotStart(fs, bytes, q) == start
  {
    HalvesJoin(start);
  }

  /** Decoding a short slot gives its fields back. */
  lemma SlotDecoded(fs: FileSys, bytes: seq<byte>, q: nat, s: Slot, start: nat)
    requires SlotShown(bytes, q, s) && s.ShortSlot? && |s.name| == 11
    requires s.cluster as int == start % 0x1_0000 && (fs.FAT32? ==> s.clusterHigh as int == start / 0x1_0000 % 0x1_0000)
    requires start < if fs.FAT32? then TWO32 else 0x1_0000
    ensures SlotStart(fs, bytes, q) == start && SlotSize(bytes, q) == s.size && SlotName(bytes, q) == s.name
  {
    SlotClusters(bytes, q, s);
    StartDecoded(fs, bytes, q, start);
    SlotDword(bytes, q, s, s.size);
    SlotNameShown(bytes, q, s);
  }

  lemma BlockShown(bytes: seq<byte>, blocks: seq<Block>, q: nat, s: Slot)
    requires ShownBy(DirData(blocks), bytes) && SlotInside(bytes, q) && q < |blocks| && blocks[q] == Encoded(s)
    ensures SlotShown(bytes, q, s)
  {
    forall r {:trigger SlotCell(s, r)} | 0 <= r < 32
      ensures Shows(SlotCell(s, r), ByteAt(bytes, 32 * q + r))
    {
      SlotIndex(q, r);
      assert Shows(PayloadCell(DirData(blocks), 32 * q + r), bytes[32 * q + r]);
      assert PayloadCell(DirData(blocks), 32 * q + r) == blocks[q][r];
    }
  }

  // ---------------------------------------------------------------- entries

  /** `bytes` are those of directory `p`, as far as they go. */
  ghost predicate DirSeen(k: Disk, bytes: seq<byte>, p: int) {
    && DiskShape(k) && 0 <= p < |k.sizes| && k.t.links[p].isDir && ShownBy(PayloadOf(k, p), bytes)
  }

  /** `bytes` are the slots of directory `p`, all of them, followed by zeros. */
  ghost predicate DirFound(k: Disk, bytes: seq<byte>, p: int) {
    DirSeen(k, bytes, p) && 32 * |DirBlocks(k, p)| <= |bytes|
  }

  lemma DirSlotsFit(k: Disk, fents: seq<Fent>, p: int)
    requires DirNumbered(k, fents, p)
    ensures 32 * |DirBlocks(k, p)| <= k.sizes[p].bytes
  {
    DirCount(k, p);
  }

  /** In a whole directory every entry is inside. */
  lemma ShortInside(k: Disk, bytes: seq<byte>, p: int, j: nat)
    requires DirFound(k, bytes, p) && j < |k.t.links[p].entries| && EntriesIn(k.t.links[p].entries, |k.sizes|)
    ensures SlotInside(bytes, ShortAt(k, p, j))
  {
    ShortBlock(k, p, j);
  }

  /** The entry of `f` in the directory bytes `dir` is slot `q`: name, start cluster and size. */
  ghost predicate EntryFound(k: Disk, dir: seq<byte>, q: nat, f: int)
    requires DiskShape(k) && 0 <= f < |k.sizes|
  {
    && SlotName(dir, q) == NameField(k.t.attrs[f].shortname)
    && SlotStart(k.l.fs, dir, q) == (if k.sizes[f].bytes == 0 then 0 else k.exts[f].start)
    && SlotSize(dir, q) == if k.t.links[f].isDir then 0 else k.sizes[f].bytes
  }

  /** What an entry needs to be representable: sizes and start clusters fit their fields. */
  ghost predicate Representable(k: Disk, f: int)
    requires DiskShape(k)
  {
    && 0 <= f < |k.sizes| && k.t.links[f].parent != NONE
    && (!k.t.links[f].isDir ==> k.sizes[f].bytes < TWO32)
    && (k.sizes[f].bytes > 0 ==> k.exts[f].start < if k.l.fs.FAT32? then TWO32 else 0x1_0000)
  }

  function ShortOf(k: Disk, f: int): Slot
    requires DiskShape(k) && 0 <= f < |k.sizes|
  {
    ShortSlotOf(k, f, NameField(k.t.attrs[f].shortname))
  }

  lemma SlotMeansEntry(k: Disk, dir: seq<byte>, q: nat, f: int)
    requires DiskShape(k) && Representable(k, f) && SlotShown(dir, q, ShortOf(k, f))
    ensures EntryFound(k, dir, q, f)
  {
    var s := ShortOf(k, f);
    ShortFields(k, f, s);
    SlotDecoded(k.l.fs, dir, q, s, if k.sizes[f].bytes == 0 then 0 else k.exts[f].start);
  }

  lemma ShortFields(k: Disk, f: int, s: Slot)
    requires DiskShape(k) && Representable(k, f) && s == ShortOf(k, f)
    ensures s.ShortSlot? && s.name == NameField(k.t.attrs[f].shortname)
    ensures
      var start := if k.sizes[f].bytes == 0 then 0 else k.exts[f].start;
      && s.cluster as int == start % 0x1_0000
      && (k.l.fs.FAT32? ==> s.clusterHigh as int == start / 0x1_0000 % 0x1_0000)
    ensures s.size == if k.t.links[f].isDir then 0 else k.sizes[f].bytes
  {
    if !k.t.links[f].isDir {
      Wrap32Id(k.sizes[f].bytes);
    }
  }

  lemma EntrySlotShown(k: Disk, dir: seq<byte>, p: int, j: nat)
    requires DirSeen(k, dir, p) && j < |k.t.links[p].entries| && EntriesIn(k.t.links[p].entries, |k.sizes|)
    requires SlotInside(dir, ShortAt(k, p, j))
    ensures SlotShown(dir, ShortAt(k, p, j), ShortOf(k, k.t.links[p].entries[j]))
  {
    ShortBlock(k, p, j);
    BlockShown(dir, DirBlocks(k, p), ShortAt(k, p, j), ShortOf(k, k.t.links[p].entries[j]));
  }

  lemma EntryIsFound(k: Disk, dir: seq<byte>, p: int, j: nat)
    requires DirSeen(k, dir, p) && j < |k.t.links[p].entries| && EntriesIn(k.t.links[p].entries, |k.sizes|)
    requires SlotInside(dir, ShortAt(k, p, j)) && Representable(k, k.t.links[p].entries[j])
    ensures EntryFound(k, dir, ShortAt(k, p, j), k.t.links[p].entries[j])
  {
    EntrySlotShown(k, dir, p, j);
    SlotMeansEntry(k, dir, ShortAt(k, p, j), k.t.links[p].entries[j]);
  }

  // ---------------------------------------------------------------- long names

  function RawSlotAt(bytes: seq<byte>, q: nat): RawSlot {
    var slot: seq<byte> := seq(32, r requires 0 <= r => ByteAt(bytes, 32 * q + r));
    slot
  }

  function RawSlots(bytes: seq<byte>, q: nat, n: nat): (r: seq<RawSlot>)
    ensures |r| == n
  {
    seq<RawSlot>(n, e requires 0 <= e => RawSlotAt(bytes, q + e))
  }

  function LongOf(k: Disk, f: int, e: nat): Slot
    requires DiskShape(k) && 0 <= f < |k.sizes| && e < LongCount(k.t.attrs[f].name)
  {
    var a := k.t.attrs[f];
    LongSlotFor(a.name, ChecksumOf(NameField(a.shortname), 11), LongCount(a.name) - e)
  }

  lemma LongBlock(k: Disk, f: int, e: nat)
    requires DiskShape(k) && 0 <= f < |k.sizes| && k.t.vfat && k.t.attrs[f].longName && e < LongCount(k.t.attrs[f].name)
    ensures e < |EntryBlocks(k, f)| && EntryBlocks(k, f)[e] == Encoded(LongOf(k, f, e))
  {
  }

  lemma LongSlotShown(k: Disk, dir: seq<byte>, p: int, j: nat, f: int, e: nat, s: Slot)
    requires DirSeen(k, dir, p) && j < |k.t.links[p].entries| && EntriesIn(k.t.links[p].entries, |k.sizes|)
    requires f == k.t.links[p].entries[j] && e < |EntryBlocks(k, f)| && EntryBlocks(k, f)[e] == Encoded(s)
    requires SlotInside(dir, DiskPos(k, p, j) + e)
    ensures SlotShown(dir, DiskPos(k, p, j) + e, s)
  {
    BlockAt(k, p, j, f, e);
    BlockShown(dir, DirBlocks(k, p), DiskPos(k, p, j) + e, s);
  }

  lemma BlockAt(k: Disk, p: int, j: nat, f: int, e: nat)
    requires DiskShape(k) && 0 <= p < |k.sizes| && j < |k.t.links[p].entries|
    requires EntriesIn(k.t.links[p].entries, |k.sizes|)
    requires f == k.t.links[p].entries[j] && e < |EntryBlocks(k, f)|
    ensures DiskPos(k, p, j) + e < |DirBlocks(k, p)| && DirBlocks(k, p)[DiskPos(k, p, j) + e] == EntryBlocks(k, f)[e]
  {
    DirHoldsEntries(k, p);
    AllBlocksRender(k);
    BlockIn(k, AllBlocks(k), DirBlocks(k, p), p, j, e);
  }

  lemma BlockIn(k: Disk, bs: seq<seq<Block>>, dir: seq<Block>, p: int, j: nat, e: nat)
    requires DiskShape(k) && 0 <= p < |k.sizes| && j < |k.t.links[p].entries|
    requires EntriesIn(k.t.links[p].entries, |k.sizes|)
    requires Renders(k, bs) && HoldsEntries(k, bs, dir, p) && e < |EntryBlocks(k, k.t.links[p].entries[j])|
    ensures DiskPos(k, p, j) + e < |dir| && dir[DiskPos(k, p, j) + e] == EntryBlocks(k, k.t.links[p].entries[j])[e]
  {
    assert HoldsEntry(k, bs, dir, p, j);
    assert RendersAt(k, bs, k.t.links[p].entries[j]);
  }

  lemma RawShown(bytes: seq<byte>, q: nat, s: Slot)
    requires SlotShown(bytes, q, s)
    ensures ShowsSlot(RawSlotAt(bytes, q), s)
  {
    forall r | 0 <= r < 32
      ensures Shows(SlotCell(s, r), RawSlotAt(bytes, q)[r])
    {
      assert Shows(SlotCell(s, r), ByteAt(bytes, 32 * q + r));
    }
  }

  /** The slots in front of short slot `q` give this long name, exactly if it has fewer than 819 characters,
      all of them ASCII. */
  ghost predicate NameBefore(dir: seq<byte>, q: nat, name: Name) {
    && LongCount(name) <= q
    && (DecodeLongName(RawSlots(dir, q - LongCount(name), LongCount(name))) == Wide(name) <==>
        |name| < 819 && Ascii(name))
  }

  ghost predicate LongFound(k: Disk, dir: seq<byte>, q: nat, f: int)
    requires DiskShape(k) && 0 <= f < |k.sizes|
  {
    k.t.vfat && k.t.attrs[f].longName ==> NameBefore(dir, q, k.t.attrs[f].name)
  }

  /** Slot `e` of the long name of `n` slots at position `pos`. */
  ghost predicate LongPartShown(dir: seq<byte>, pos: nat, name: Name, chk: byte, n: nat, e: int)
    requires 0 <= e < n
  {
    SlotShown(dir, pos + e, LongSlotFor(name, chk, n - e))
  }

  lemma RawPartShown(dir: seq<byte>, pos: nat, n: nat, e: nat, s: Slot)
    requires e < n && SlotShown(dir, pos + e, s)
    ensures ShowsSlot(RawSlots(dir, pos, n)[e], s)
  {
    RawShown(dir, pos + e, s);
    assert RawSlots(dir, pos, n)[e] == RawSlotAt(dir, pos + e);
  }

  lemma PartsShown(dir: seq<byte>, pos: nat, name: Name, chk: byte, n: nat)
    requires forall e {:trigger LongPartShown(dir, pos, name, chk, n, e)} ::
               0 <= e < n ==> LongPartShown(dir, pos, name, chk, n, e)
    ensures ShowsParts(RawSlots(dir, pos, n), name, chk, n)
  {
    var raws := RawSlots(dir, pos, n);
    forall e {:trigger PartAt(raws, name, chk, n, e)} | 0 <= e < n
      ensures PartAt(raws, name, chk, n, e)
    {
      assert LongPartShown(dir, pos, name, chk, n, e);
      RawPartShown(dir, pos, n, e, LongSlotFor(name, chk, n - e));
    }
  }

  lemma LongIsFound(k: Disk, dir: seq<byte>, p: int, j: nat, f: int, name: Name)
    requires DirSeen(k, dir, p) && j < |k.t.links[p].entries| && EntriesIn(k.t.links[p].entries, |k.sizes|)
    requires f == k.t.links[p].entries[j] && name == k.t.attrs[f].name && NulFree(name)
    requires SlotInside(dir, ShortAt(k, p, j))
    ensures LongFound(k, dir, ShortAt(k, p, j), f)
  {
    if k.t.vfat && k.t.attrs[f].longName {
      ShortBehindLong(k, p, j, f);
      EntryPartsShown(k, dir, p, j, f, name, ChecksumOf(NameField(k.t.attrs[f].shortname), 11));
    }
  }

  lemma ShortBehindLong(k: Disk, p: int, j: nat, f: int)
    requires DiskShape(k) && 0 <= p < |k.sizes| && j < |k.t.links[p].entries| && f == k.t.links[p].entries[j]
    requires 0 <= f < |k.sizes| && k.t.vfat && k.t.attrs[f].longName
    ensures ShortAt(k, p, j) == DiskPos(k, p, j) + LongCount(k.t.attrs[f].name)
  {
  }

  lemma EntryPartShown(k: Disk, dir: seq<byte>, p: int, j: nat, f: int, name: Name, chk: byte, e: nat)
    requires DirSeen(k, dir, p) && j < |k.t.links[p].entries| && EntriesIn(k.t.links[p].entries, |k.sizes|)
    requires f == k.t.links[p].entries[j] && name == k.t.attrs[f].name
    requires chk == ChecksumOf(NameField(k.t.attrs[f].shortname), 11)
    requires k.t.vfat && k.t.attrs[f].longName && e < LongCount(name)
    requires SlotInside(dir, DiskPos(k, p, j) + e)
    ensures LongPartShown(dir, DiskPos(k, p, j), name, chk, LongCount(name), e)
  {
    LongBlock(k, f, e);
    assert LongOf(k, f, e) == LongSlotFor(name, chk, LongCount(name) - e);
    LongSlotShown(k, dir, p, j, f, e, LongOf(k, f, e));
  }

  lemma EntryPartsShown(k: Disk, dir: seq<byte>, p: int, j: nat, f: int, name: Name, chk: byte)
    requires DirSeen(k, dir, p) && j < |k.t.links[p].entries| && EntriesIn(k.t.links[p].entries, |k.sizes|)
    requires NulFree(name)
    requires f == k.t.links[p].entries[j] && name == k.t.attrs[f].name
    requires chk == ChecksumOf(NameField(k.t.attrs[f].shortname), 11)
    requires k.t.vfat && k.t.attrs[f].longName
    requires SlotInside(dir, ShortAt(k, p, j))
    ensures NameBefore(dir, DiskPos(k, p, j) + LongCount(name), name)
  {
    var n, pos := LongCount(name), DiskPos(k, p, j);
    ShortBehindLong(k, p, j, f);
    forall e {:trigger LongPartShown(dir, pos, name, chk, n, e)} | 0 <= e < n
      ensures LongPartShown(dir, pos, name, chk, n, e)
    {
      EntryPartShown(k, dir, p, j, f, name, chk, e);
    }
    PartsDecode(dir, pos, name, chk, n);
  }

  lemma PartsDecode(dir: seq<byte>, pos: nat, name: Name, chk: byte, n: nat)
    requires NulFree(name) && n == LongCount(name)
    requires forall e {:trigger LongPartShown(dir, pos, name, chk, n, e)} ::
               0 <= e < n ==> LongPartShown(dir, pos, name, chk, n, e)
    ensures NameBefore(dir, pos + n, name)
  {
    PartsShown(dir, pos, name, chk, n);
    LongNameRoundTrip(name, chk, RawSlots(dir, pos, n));
  }
}
