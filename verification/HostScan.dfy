/** What a host that scans a directory finds in it (libvdf/read_dir.c). */
module HostScan {
  import opened Bytes
  import opened Volume
  import opened Names
  import opened LongNames
  import opened Directory
  import opened DirReader
  import opened HostReader
  import opened HostDirs

  // ---------------------------------------------------------------- scanning

  /** A first byte of 0xe5 marks a deleted entry, bit 3 of the attributes a long-name slot or a volume label. */
  predicate Lists(dir: seq<byte>, q: nat) {
    ByteAt(dir, 32 * q) != 0xe5 && !VolumeBit(ByteAt(dir, 32 * q + 11))
  }

  predicate VolumeBit(attr: byte) {
    attr / 8 % 2 == 1
  }

  /** The slots in which a host finds files and directories, from slot `q` on: a first byte of 0 is the end. */
  function ScanFrom(dir: seq<byte>, q: nat): seq<nat>
    decreases |dir| - 32 * q
  {
    if !SlotInside(dir, q) || ByteAt(dir, 32 * q) == 0 then []
    else (if Lists(dir, q) then [q] else []) + ScanFrom(dir, q + 1)
  }

  /** What an entry needs to be seen: the code neither escapes a first character of 0xe5 nor keeps the number of a
      long-name slot from becoming 0 modulo 256. */
  predicate Listable(k: Disk, f: int) {
    && 0 <= f < |k.t.attrs|
    && NameField(k.t.attrs[f].shortname)[0] != 0xe5 && !VolumeBit(k.t.attrs[f].attr)
    && (k.t.vfat && k.t.attrs[f].longName ==> LongCount(k.t.attrs[f].name) <= 256)
  }

  // ---------------------------------------------------------------- one entry

  /** Slot `q` is inside, is not the end and is not listed. */
  predicate PassedOver(dir: seq<byte>, q: int) {
    q >= 0 && SlotInside(dir, q) && ByteAt(dir, 32 * q) != 0 && !Lists(dir, q)
  }

  lemma {:induction false} ScanPasses(dir: seq<byte>, q: nat, n: nat)
    requires forall e {:trigger PassedOver(dir, e)} :: q <= e < q + n ==> PassedOver(dir, e)
    ensures ScanFrom(dir, q) == ScanFrom(dir, q + n)
    decreases n
  {
    if n > 0 {
      assert PassedOver(dir, q);
      ScanPasses(dir, q + 1, n - 1);
    }
  }

  /** Slot `q` carries bit 3 and is the end exactly if its number is 0 modulo 256. */
  lemma LongSlotSeen(dir: seq<byte>, q: nat, name: Name, chk: byte, n: nat, e: nat)
    requires n == LongCount(name) && e < n && SlotInside(dir, q) && SlotShown(dir, q, LongSlotFor(name, chk, n - e))
    ensures if e > 0 && (n - e) % 256 == 0 then ScanFrom(dir, q) == [] else PassedOver(dir, q)
  {
    var s := LongSlotFor(name, chk, n - e);
    assert SlotCell(s, 0) == Is(SequenceByte(n - e, n));
    assert SlotCell(s, 11) == Is(0x0f);
    assert ByteAt(dir, 32 * q + 0) == SequenceByte(n - e, n);
  }

  /** Slot `e` of `n` long-name slots from slot `pos` on. */
  predicate PartSeen(dir: seq<byte>, pos: nat, n: nat, e: int)
    requires 0 <= e < n
  {
    if e > 0 && (n - e) % 256 == 0 then ScanFrom(dir, pos + e) == [] else PassedOver(dir, pos + e)
  }

  /** Up to 256 long-name slots are passed over. */
  lemma FewPartsPass(dir: seq<byte>, pos: nat, n: nat, m: nat)
    requires m <= n <= 256 && forall e {:trigger PartSeen(dir, pos, n, e)} :: 0 <= e < m ==> PartSeen(dir, pos, n, e)
    ensures ScanFrom(dir, pos) == ScanFrom(dir, pos + m)
  {
    forall q {:trigger PassedOver(dir, q)} | pos <= q < pos + m
      ensures PassedOver(dir, q)
    {
      assert PartSeen(dir, pos, n, q - pos);
    }
    ScanPasses(dir, pos, m);
  }

  /** Of more than 256, one has number 0 modulo 256. */
  lemma ManyPartsStop(dir: seq<byte>, pos: nat, n: nat, m: nat)
    requires m <= n && 256 < n
    requires forall e {:trigger PartSeen(dir, pos, n, e)} :: 0 <= e < m ==> PartSeen(dir, pos, n, e)
    ensures ScanFrom(dir, pos) == [] || ScanFrom(dir, pos) == ScanFrom(dir, pos + m)
    ensures m == n ==> ScanFrom(dir, pos) == []
  {
    var stop := (n - 1) % 256 + 1;
    var c := Min(m, stop);
    forall q {:trigger PassedOver(dir, q)} | pos <= q < pos + c
      ensures PassedOver(dir, q)
    {
      assert PartSeen(dir, pos, n, q - pos);
    }
    ScanPasses(dir, pos, c);
    assert stop < m ==> PartSeen(dir, pos, n, stop);
  }

  /** The slots of an entry from slot `pos` on, `n` long-name slots and the short slot `s`, as far as they are
      inside. */
  ghost predicate EntrySeen(dir: seq<byte>, pos: nat, n: nat, name: Name, chk: byte, s: Slot) {
    && (n == 0 || n == LongCount(name))
    && (forall e {:trigger LongPartShown(dir, pos, name, chk, n, e)} ::
          0 <= e < n && SlotInside(dir, pos + e) ==> LongPartShown(dir, pos, name, chk, n, e))
    && (SlotInside(dir, pos + n) ==> SlotShown(dir, pos + n, s))
    && s.ShortSlot? && |s.name| == 11 && s.name[0] != 0
  }

  /** Its first `m` long-name slots. */
  lemma PartsScanned(dir: seq<byte>, pos: nat, n: nat, name: Name, chk: byte, s: Slot, m: nat)
    requires EntrySeen(dir, pos, n, name, chk, s) && m <= n && (m == 0 || SlotInside(dir, pos + m - 1))
    ensures ScanFrom(dir, pos) == [] || ScanFrom(dir, pos) == ScanFrom(dir, pos + m)
    ensures n <= 256 ==> ScanFrom(dir, pos) == ScanFrom(dir, pos + m)
    ensures n > 256 && m == n ==> ScanFrom(dir, pos) == []
  {
    forall e {:trigger PartSeen(dir, pos, n, e)} | 0 <= e < m
      ensures PartSeen(dir, pos, n, e)
    {
      assert LongPartShown(dir, pos, name, chk, n, e);
      LongSlotSeen(dir, pos + e, name, chk, n, e);
    }
    if n <= 256 {
      FewPartsPass(dir, pos, n, m);
    } else {
      ManyPartsStop(dir, pos, n, m);
    }
  }

  /** What a short slot needs to be seen. */
  predicate Visible(s: Slot, n: nat)
    requires s.ShortSlot? && |s.name| == 11
  {
    s.name[0] != 0xe5 && !VolumeBit(s.attr) && n <= 256
  }

  /** An entry that is inside is listed if it can be seen; otherwise it is left out or ends the scan. */
  lemma EntryScanned(dir: seq<byte>, pos: nat, n: nat, name: Name, chk: byte, s: Slot)
    requires EntrySeen(dir, pos, n, name, chk, s) && SlotInside(dir, pos + n)
    ensures
      var all, rest := ScanFrom(dir, pos), ScanFrom(dir, pos + n + 1);
      if Visible(s, n) then all == [pos + n] + rest else all == [] || all == rest
  {
    PartsScanned(dir, pos, n, name, chk, s, n);
    assert SlotCell(s, 0) == Is(s.name[0]) && SlotCell(s, 11) == Is(s.attr);
    assert ByteAt(dir, 32 * (pos + n) + 0) == s.name[0];
  }

  /** An entry that is cut off is not listed. */
  lemma CutScanned(dir: seq<byte>, pos: nat, n: nat, name: Name, chk: byte, s: Slot)
    requires EntrySeen(dir, pos, n, name, chk, s) && !SlotInside(dir, pos + n)
    ensures ScanFrom(dir, pos) == []
  {
    PartsScanned(dir, pos, n, name, chk, s, if 32 * pos <= |dir| then |dir| / 32 - pos else 0);
  }

  // ---------------------------------------------------------------- a whole directory

  /** The number of long-name slots in front of the short slot of `f`. */
  function Before(k: Disk, f: int): nat
    requires DiskShape(k) && 0 <= f < |k.sizes|
  {
    if k.t.vfat && k.t.attrs[f].longName then LongCount(k.t.attrs[f].name) else 0
  }

  /** Entry `j` of directory `p`, whose slots begin at slot `pos`. */
  ghost predicate EntryAt(k: Disk, dir: seq<byte>, p: int, j: int, pos: nat)
    requires DiskShape(k) && 0 <= p < |k.sizes| && 0 <= j < |k.t.links[p].entries|
  {
    var f := k.t.links[p].entries[j];
    && 0 <= f < |k.sizes| && pos == DiskPos(k, p, j)
    && EntrySeen(dir, pos, Before(k, f), k.t.attrs[f].name, ChecksumOf(NameField(k.t.attrs[f].shortname), 11),
                 ShortOf(k, f))
  }

  lemma LongPartsInside(k: Disk, dir: seq<byte>, p: int, j: nat, f: int, pos: nat, n: nat, name: Name, chk: byte)
    requires DirSeen(k, dir, p) && j < |k.t.links[p].entries| && EntriesIn(k.t.links[p].entries, |k.sizes|)
    requires f == k.t.links[p].entries[j] && pos == DiskPos(k, p, j) && n == Before(k, f)
    requires name == k.t.attrs[f].name && chk == ChecksumOf(NameField(k.t.attrs[f].shortname), 11)
    ensures forall e {:trigger LongPartShown(dir, pos, name, chk, n, e)} ::
              0 <= e < n && SlotInside(dir, pos + e) ==> LongPartShown(dir, pos, name, chk, n, e)
  {
    forall e {:trigger LongPartShown(dir, pos, name, chk, n, e)} | 0 <= e < n && SlotInside(dir, pos + e)
      ensures LongPartShown(dir, pos, name, chk, n, e)
    {
      EntryPartShown(k, dir, p, j, f, name, chk, e);
    }
  }

  lemma ShortInPlace(k: Disk, dir: seq<byte>, p: int, j: nat, f: int, q: nat, s: Slot)
    requires DirSeen(k, dir, p) && j < |k.t.links[p].entries| && EntriesIn(k.t.links[p].entries, |k.sizes|)
    requires f == k.t.links[p].entries[j] && q == DiskPos(k, p, j) + Before(k, f) && s == ShortOf(k, f)
    requires NulFree(k.t.attrs[f].shortname)
    ensures SlotInside(dir, q) ==> SlotShown(dir, q, s)
    ensures s.ShortSlot? && |s.name| == 11 && s.name[0] != 0
  {
    assert ShortAt(k, p, j) == q;
    if SlotInside(dir, q) {
      EntrySlotShown(k, dir, p, j);
    }
    FirstByteOfName(k.t.attrs[f].shortname);
  }

  lemma EntryIsAt(k: Disk, dir: seq<byte>, p: int, j: nat)
    requires DirSeen(k, dir, p) && j < |k.t.links[p].entries| && EntriesIn(k.t.links[p].entries, |k.sizes|)
    requires NulFree(k.t.attrs[k.t.links[p].entries[j]].shortname)
    ensures EntryAt(k, dir, p, j, DiskPos(k, p, j))
  {
    var f, pos := k.t.links[p].entries[j], DiskPos(k, p, j);
    var chk := ChecksumOf(NameField(k.t.attrs[f].shortname), 11);
    EntryIsSeen(k, dir, p, j, f, pos, Before(k, f), k.t.attrs[f].name, chk, ShortOf(k, f));
  }

  lemma EntryIsSeen(k: Disk, dir: seq<byte>, p: int, j: nat, f: int, pos: nat, n: nat, name: Name, chk: byte, s: Slot)
    requires DirSeen(k, dir, p) && j < |k.t.links[p].entries| && EntriesIn(k.t.links[p].entries, |k.sizes|)
    requires f == k.t.links[p].entries[j] && pos == DiskPos(k, p, j) && n == Before(k, f) && s == ShortOf(k, f)
    requires name == k.t.attrs[f].name && chk == ChecksumOf(NameField(k.t.attrs[f].shortname), 11)
    requires NulFree(k.t.attrs[f].shortname)
    ensures EntrySeen(dir, pos, n, name, chk, s)
  {
    LongPartsInside(k, dir, p, j, f, pos, n, name, chk);
    ShortInPlace(k, dir, p, j, f, pos + n, s);
    PartsMakeEntry(dir, pos, n, name, chk, s);
  }

  lemma PartsMakeEntry(dir: seq<byte>, pos: nat, n: nat, name: Name, chk: byte, s: Slot)
    requires n == 0 || n == LongCount(name)
    requires forall e {:trigger LongPartShown(dir, pos, name, chk, n, e)} ::
               0 <= e < n && SlotInside(dir, pos + e) ==> LongPartShown(dir, pos, name, chk, n, e)
    requires SlotInside(dir, pos + n) ==> SlotShown(dir, pos + n, s)
    requires s.ShortSlot? && |s.name| == 11 && s.name[0] != 0
    ensures EntrySeen(dir, pos, n, name, chk, s)
  {
  }

  /** All entries of directory `p`; behind them it is zero or its bytes end. */
  ghost predicate AllEntriesAt(k: Disk, dir: seq<byte>, p: int)
    requires DiskShape(k) && 0 <= p < |k.sizes|
  {
    var es := k.t.links[p].entries;
    && (forall j {:trigger EntryAt(k, dir, p, j, DiskPos(k, p, j))} ::
          0 <= j < |es| ==> EntryAt(k, dir, p, j, DiskPos(k, p, j)))
    && DirEnds(dir, DiskPos(k, p, |es|))
  }

  predicate DirEnds(dir: seq<byte>, q: nat) {
    SlotInside(dir, q) ==> ByteAt(dir, 32 * q) == 0
  }

  lemma EntriesAreAt(k: Disk, dir: seq<byte>, p: int)
    requires DirSeen(k, dir, p) && EntriesIn(k.t.links[p].entries, |k.sizes|)
    requires forall f :: 0 <= f < |k.t.attrs| ==> NulFree(k.t.attrs[f].shortname)
    ensures AllEntriesAt(k, dir, p)
  {
    var es := k.t.links[p].entries;
    forall j {:trigger EntryAt(k, dir, p, j, DiskPos(k, p, j))} | 0 <= j < |es|
      ensures EntryAt(k, dir, p, j, DiskPos(k, p, j))
    {
      EntryIsAt(k, dir, p, j);
    }
    var q := DiskPos(k, p, |es|);
    DirCount(k, p);
    if SlotInside(dir, q) {
      SlotIndex(q, 0);
      assert Shows(PayloadCell(PayloadOf(k, p), 32 * q), dir[32 * q]);
    }
  }

  /** Exactly the first `m` entries of directory `p` lie inside its bytes. */
  predicate InsideUpTo(k: Disk, dir: seq<byte>, p: int, m: nat)
    requires DiskShape(k) && 0 <= p < |k.sizes|
  {
    var es := k.t.links[p].entries;
    && m <= |es|
    && (forall j: nat {:trigger ShortAt(k, p, j)} :: j < m ==> SlotInside(dir, ShortAt(k, p, j)))
    && (m < |es| ==> !SlotInside(dir, ShortAt(k, p, m)))
  }

  /** The short slots of entries `j` up to `m`. */
  function ShortSlots(k: Disk, p: int, j: nat, m: nat): seq<nat>
    requires DiskShape(k) && 0 <= p < |k.sizes| && j <= m <= |k.t.links[p].entries|
    decreases m - j
  {
    if j == m then [] else [ShortAt(k, p, j)] + ShortSlots(k, p, j + 1, m)
  }

  predicate AllListable(k: Disk, es: seq<int>, j: nat, m: nat)
    requires m <= |es|
  {
    forall i :: j <= i < m ==> Listable(k, es[i])
  }

  lemma EntryStep(k: Disk, dir: seq<byte>, p: int, j: nat)
    requires DiskShape(k) && 0 <= p < |k.sizes| && j < |k.t.links[p].entries| && AllEntriesAt(k, dir, p)
    requires SlotInside(dir, ShortAt(k, p, j))
    ensures
      var all, rest := ScanFrom(dir, DiskPos(k, p, j)), ScanFrom(dir, DiskPos(k, p, j + 1));
      if Listable(k, k.t.links[p].entries[j]) then all == [ShortAt(k, p, j)] + rest else all == [] || all == rest
  {
    var f, pos := k.t.links[p].entries[j], DiskPos(k, p, j);
    assert EntryAt(k, dir, p, j, pos);
    var chk := ChecksumOf(NameField(k.t.attrs[f].shortname), 11);
    EntryScanned(dir, pos, Before(k, f), k.t.attrs[f].name, chk, ShortOf(k, f));
  }

  lemma CutStep(k: Disk, dir: seq<byte>, p: int, j: nat)
    requires DiskShape(k) && 0 <= p < |k.sizes| && j < |k.t.links[p].entries| && AllEntriesAt(k, dir, p)
    requires !SlotInside(dir, ShortAt(k, p, j))
    ensures ScanFrom(dir, DiskPos(k, p, j)) == []
  {
    var f, pos := k.t.links[p].entries[j], DiskPos(k, p, j);
    assert EntryAt(k, dir, p, j, pos);
    var chk := ChecksumOf(NameField(k.t.attrs[f].shortname), 11);
    CutScanned(dir, pos, Before(k, f), k.t.attrs[f].name, chk, ShortOf(k, f));
  }

  lemma {:induction false} ScannedFrom(k: Disk, dir: seq<byte>, p: int, j: nat, m: nat)
    requires DiskShape(k) && 0 <= p < |k.sizes| && AllEntriesAt(k, dir, p) && InsideUpTo(k, dir, p, m) && j <= m
    ensures
      var found, es := ScanFrom(dir, DiskPos(k, p, j)), k.t.links[p].entries;
      && |found| <= m - j && (|found| == m - j ==> AllListable(k, es, j, m))
      && (AllListable(k, es, j, m) ==> found == ShortSlots(k, p, j, m))
      && |ShortSlots(k, p, j, m)| == m - j
    decreases m - j
  {
    if j < m {
      EntryStep(k, dir, p, j);
      ScannedFrom(k, dir, p, j + 1, m);
    } else if m < |k.t.links[p].entries| {
      CutStep(k, dir, p, m);
    }
  }

  /** Scanning a directory behind its dot entries gives the short slots of its entries in list order, as far as they
      are inside, if and only if each of these entries can be seen. */
  lemma ScanFindsEntries(k: Disk, dir: seq<byte>, p: int, m: nat)
    requires DirSeen(k, dir, p) && EntriesIn(k.t.links[p].entries, |k.sizes|) && InsideUpTo(k, dir, p, m)
    requires forall f :: 0 <= f < |k.t.attrs| ==> NulFree(k.t.attrs[f].shortname)
    ensures ScanFrom(dir, HeadCount(k, p)) == ShortSlots(k, p, 0, m) <==> AllListable(k, k.t.links[p].entries, 0, m)
  {
    EntriesAreAt(k, dir, p);
    ScannedFrom(k, dir, p, 0, m);
  }

  /** Such an input: the code accepts this name and stores it as it is, and a host takes the entry for a deleted one. */
  lemma DeletedExample(k: Disk, f: int, name: Name)
    requires name == [0xe5, 65] && 0 <= f < |k.t.attrs| && k.t.attrs[f].shortname == name
    ensures FilenameValid(name) && ShortnameChosen([], -1, name, name, false) && !Listable(k, f)
  {
    assert StuffDosname(0xe5) == [0xe5] && StuffDosname(65) == [65];
    assert Ordinary(name);
    OrdinaryBase(name);
    assert FieldChar(name, 0) == 0xe5;
  }

  // ---------------------------------------------------------------- the dot entries

  /** The start clusters that "." and ".." show can be stored. */
  predicate DotsFit(k: Disk, p: int)
    requires DiskShape(k) && 0 <= p < |k.sizes| && HeadCount(k, p) == 2
  {
    var limit := if k.l.fs.FAT32? then TWO32 else 0x1_0000;
    StartShown(k, p) < limit && StartShown(k, k.t.links[p].parent) < limit
  }

  /** The first two slots of a directory other than the root name the directory itself and its parent; both have
      size 0, and the FAT32 root is named by cluster 0. */
  lemma DotsFound(k: Disk, dir: seq<byte>, p: int)
    requires DirSeen(k, dir, p) && EntriesIn(k.t.links[p].entries, |k.sizes|) && HeadCount(k, p) == 2
    requires SlotInside(dir, 1) && DotsFit(k, p) && k.t.links[k.t.links[p].parent].isDir
    ensures SlotName(dir, 0) == DotField(1) && SlotStart(k.l.fs, dir, 0) == StartShown(k, p) && SlotSize(dir, 0) == 0
    ensures SlotName(dir, 1) == DotField(2) && SlotStart(k.l.fs, dir, 1) == StartShown(k, k.t.links[p].parent)
    ensures SlotSize(dir, 1) == 0
  {
    var up := k.t.links[p].parent;
    DirCount(k, p);
    DotShown(k, dir, p, 0, ShortSlotOf(k, p, DotField(1)));
    DotShown(k, dir, p, 1, ShortSlotOf(k, up, DotField(2)));
    SlotDecoded(k.l.fs, dir, 0, ShortSlotOf(k, p, DotField(1)), StartShown(k, p));
    SlotDecoded(k.l.fs, dir, 1, ShortSlotOf(k, up, DotField(2)), StartShown(k, up));
  }

  lemma DotShown(k: Disk, dir: seq<byte>, p: int, q: nat, s: Slot)
    requires DirSeen(k, dir, p) && q < |DirBlocks(k, p)| && DirBlocks(k, p)[q] == Encoded(s) && SlotInside(dir, q)
    ensures SlotShown(dir, q, s)
  {
    BlockShown(dir, DirBlocks(k, p), q, s);
  }
}
