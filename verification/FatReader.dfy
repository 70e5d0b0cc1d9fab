/** Writing sectors of the file allocation table (libvdf/fat.c), for FAT16 and FAT32. */
module FatReader {
  import opened Bytes
  import opened Volume
  import opened FileTree

  /** The range table, the placement of its files and the extents they stand for agree. */
  ghost predicate IndexOk(l: Layout, ranges: seq<Range>, exts: seq<Ext>, xs: seq<Extent>) {
    && |ranges| == |xs|
    && Tiled(l, xs)
    && forall i {:trigger xs[i]} :: 0 <= i < |xs| ==> IndexedAt(ranges[i], exts, xs[i])
  }

  ghost predicate IndexedAt(r: Range, exts: seq<Ext>, x: Extent) {
    && 0 <= r.file < |exts|
    && r.fatstart == x.start == exts[r.file].start && r.fatend == x.end == exts[r.file].end
    && r.sectstart == x.startsect == exts[r.file].startsect && r.sectend == x.endsect == exts[r.file].endsect
  }

  /** `find_file_fat_entry`: the scan is bounded by the number of files, but it never looks beyond the
      table, and it finds the owner of every cluster in use. */
  method FindFileFatEntry(l: Layout, ranges: seq<Range>, fileCnt: nat, dataClusterEnd: nat, ent: nat,
                          exts: seq<Ext>, ghost xs: seq<Extent>) returns (ri: int)
    requires IndexOk(l, ranges, exts, xs) && |ranges| <= fileCnt && dataClusterEnd == ClusterEnd(xs) && ent >= 2
    ensures -1 <= ri < |xs|
    ensures (ri == -1) == (ent >= dataClusterEnd)
    ensures ri >= 0 ==> xs[ri].start <= ent < xs[ri].end
  {
    if ent >= dataClusterEnd {
      return -1;
    }
    var i := 0;
    while i < fileCnt
      invariant 0 <= i <= fileCnt && i < |ranges|
      invariant forall j :: 0 <= j < i ==> xs[j].end <= ent
    {
      assert IndexedAt(ranges[i], exts, xs[i]);
      if ent < ranges[i].fatend {
        StartsBefore(l, xs, i, ent);
        return i;
      }
      i := i + 1;
    }
    assert false;
  }

  lemma StartsBefore(l: Layout, xs: seq<Extent>, i: nat, ent: nat)
    requires Tiled(l, xs) && i < |xs| && ent >= 2
    requires forall j :: 0 <= j < i ==> xs[j].end <= ent
    ensures xs[i].start <= ent
  {
    if i > 0 {
      assert Chained(xs, i - 1);
      assert xs[i - 1].end <= ent;
    }
  }

  /** Stores the low `w` bytes of a value, least significant first. */
  method StoreLe(buffer: array<byte>, pos: nat, w: nat, v: nat)
    requires w <= 4 && pos + w <= buffer.Length
    modifies buffer
    ensures forall b :: pos <= b < pos + w ==> buffer[b] == LeByte(v, b - pos)
    ensures forall b :: 0 <= b < buffer.Length && !(pos <= b < pos + w) ==> buffer[b] == old(buffer[b])
  {
    var t := 0;
    while t < w
      invariant 0 <= t <= w
      invariant forall b :: pos <= b < pos + t ==> buffer[b] == LeByte(v, b - pos)
      invariant forall b :: 0 <= b < buffer.Length && !(pos <= b < pos + t) ==> buffer[b] == old(buffer[b])
    {
      buffer[pos + t] := LeByte(v, t);
      t := t + 1;
    }
  }

  /** The first `n` bytes from `at` on are bytes base, base + 1, ... of the table. */
  ghost predicate ShowsFat(buffer: array<byte>, at: nat, fs: FileSys, xs: seq<Extent>, base: nat, n: nat)
    reads buffer
    requires !fs.FAT12? && at + n <= buffer.Length
  {
    forall b :: at <= b < at + n ==> buffer[b] == FatByte(fs, xs, base + (b - at))
  }

  /** Stores entry `ent` behind `i` bytes of the table. */
  method StoreEntry(buffer: array<byte>, at: nat, ghost fs: FileSys, ghost xs: seq<Extent>, ghost base: nat, i: nat,
                    w: nat, ghost ent: nat, v: nat)
    requires !fs.FAT12? && w == EntryWidth(fs) && at + i + w <= buffer.Length
    requires base + i == EntryPos(fs, ent) && v == FatEntry(fs, xs, ent)
    requires ShowsFat(buffer, at, fs, xs, base, i)
    modifies buffer
    ensures ShowsFat(buffer, at, fs, xs, base, i + w)
    ensures forall b :: 0 <= b < buffer.Length && !(at <= b < at + i + w) ==> buffer[b] == old(buffer[b])
  {
    StoreLe(buffer, at + i, w, v);
    forall b | at <= b < at + i + w
      ensures buffer[b] == FatByte(fs, xs, base + (b - at))
    {
      if b >= at + i {
        EntryIndex(fs, ent, b - (at + i));
        assert base + (b - at) == EntryPos(fs, ent) + (b - (at + i));
      }
    }
  }

  /** What the loop stores for cluster `ent` while it is at a file that ends before cluster `end`. */
  function StoredEntry(fs: FileSys, end: nat, ent: nat): nat {
    if ent + 1 < end then ent + 1 else EndMark(fs)
  }

  /** The test of the entry loop, for any range table: a link to the next cluster or the end mark, behind
      which the loop goes on to the next file. */
  method LinkOrEnd(fs: FileSys, end: nat, ent: nat, clust: nat) returns (value: nat, last: bool)
    requires clust == ent + 1
    ensures value == StoredEntry(fs, end, ent) && last == (ent + 1 >= end)
  {
    last := ent >= end - 1;
    value := if last then EndMark(fs) else clust;
  }

  /** What the loop stores for `n` clusters from `ent` on, for files that end before the clusters `ends`, from file
      `ri` on: behind an end mark it goes on to the next file of the table, whether that has clusters or not. */
  function Walk(fs: FileSys, ends: seq<nat>, ri: nat, ent: nat, n: nat): seq<nat>
    decreases n
  {
    if n == 0 || ri >= |ends| then []
    else [StoredEntry(fs, ends[ri], ent)] + Walk(fs, ends, if ent + 1 >= ends[ri] then ri + 1 else ri, ent + 1, n - 1)
  }

  lemma {:induction false} WalkToEnd(fs: FileSys, ends: seq<nat>, ri: nat, ent: nat, m: nat, n: nat)
    requires ri < |ends| && 0 < m <= n && ent + m == ends[ri]
    ensures |Walk(fs, ends, ri, ent, n)| >= m
    ensures Walk(fs, ends, ri, ent, n)[m..] == Walk(fs, ends, ri + 1, ends[ri], n - m)
    decreases m
  {
    if m > 1 {
      WalkToEnd(fs, ends, ri, ent + 1, m - 1, n - 1);
    }
  }

  /** The loop on such a table, apart from the bytes. */
  method EntryLoop(fs: FileSys, ends: seq<nat>, ri0: nat, ent0: nat, n: nat) returns (values: seq<nat>)
    requires ri0 < |ends|
    ensures values == Walk(fs, ends, ri0, ent0, n)
  {
    values := [];
    var ri: nat, ent: nat, clust: nat, left: nat := ri0, ent0, ent0 + 1, n;
    while left > 0
      invariant ri < |ends| && clust == ent + 1
      invariant values + Walk(fs, ends, ri, ent, left) == Walk(fs, ends, ri0, ent0, n)
    {
      var value, last := LinkOrEnd(fs, ends[ri], ent, clust);
      values, left := values + [value], left - 1;
      clust, ent := clust + 1, ent + 1;
      if last {
        ri := ri + 1;
        if ri == |ends| {
          return;
        }
      }
    }
  }

  /** A file without clusters between two others takes an entry from the second: its first entry is an end mark, not
      the link to its next cluster. */
  lemma EmptyRangeCuts(fs: FileSys, a: nat, b: nat)
    requires !fs.FAT12? && a > 0 && b > 1
    ensures
      var table := Walk(fs, [2 + a, 2 + a, 2 + a + b], 0, 2, a + b);
      |table| > a && table[a] == EndMark(fs)
  {
    var ends := [2 + a, 2 + a, 2 + a + b];
    WalkToEnd(fs, ends, 0, 2, a, a + b);
    assert Walk(fs, ends, 0, 2, a + b)[a..] == [EndMark(fs)] + Walk(fs, ends, 2, 3 + a, b - 1);
    assert Walk(fs, ends, 0, 2, a + b)[a..][0] == Walk(fs, ends, 0, 2, a + b)[a];
  }

  /** Writes the entry of cluster `ent`, which belongs to file `ri`. */
  method StoreLink(l: Layout, end: nat, ghost xs: seq<Extent>, ghost ri: nat, buffer: array<byte>, at: nat,
                   ghost base: nat, i: nat, ent: nat, clust: nat) returns (last: bool)
    requires !l.fs.FAT12? && Tiled(l, xs)
    requires ri < |xs| && xs[ri].start <= ent < xs[ri].end == end && clust == ent + 1
    requires at + i + EntryWidth(l.fs) <= buffer.Length && base + i == EntryPos(l.fs, ent)
    requires ShowsFat(buffer, at, l.fs, xs, base, i)
    modifies buffer
    ensures last == (ent + 1 == xs[ri].end)
    ensures ShowsFat(buffer, at, l.fs, xs, base, i + EntryWidth(l.fs))
    ensures forall b :: 0 <= b < buffer.Length && !(at <= b < at + i + EntryWidth(l.fs)) ==> buffer[b] == old(buffer[b])
  {
    FatEntryInside(l, xs, ri, ent);
    var value;
    value, last := LinkOrEnd(l.fs, end, ent, clust);
    StoreEntry(buffer, at, l.fs, xs, base, i, EntryWidth(l.fs), ent, value);
  }

  /** The entry loop of `read_sector_fat`; it ends at the end of the buffer, behind the last file, or, not
      `inside` the range table any more, where it would go on to a file behind it. */
  method FillEntries(l: Layout, ranges: seq<Range>, exts: seq<Ext>, fileCnt: nat, ghost xs: seq<Extent>,
                     buffer: array<byte>, at: nat, ghost base: nat, i0: nat, total: nat, ent0: nat, ri0: nat,
                     ghost entEnd: nat) returns (i: nat, inside: bool)
    requires !l.fs.FAT12? && IndexOk(l, ranges, exts, xs) && |ranges| <= fileCnt
    requires at + total <= buffer.Length && i0 <= total && base + total == EntryPos(l.fs, entEnd)
    requires base + i0 == EntryPos(l.fs, ent0)
    requires ri0 < |xs| && xs[ri0].start <= ent0 < xs[ri0].end
    requires ShowsFat(buffer, at, l.fs, xs, base, i0)
    modifies buffer
    ensures inside == (fileCnt == |ranges| || base + total < EntryPos(l.fs, ClusterEnd(xs)))
    ensures i0 <= i <= total && ShowsFat(buffer, at, l.fs, xs, base, i)
    ensures inside ==> i == total || base + i == EntryPos(l.fs, ClusterEnd(xs))
    ensures forall b :: 0 <= b < buffer.Length && !(at <= b < at + i) ==> buffer[b] == old(buffer[b])
  {
    i, inside := i0, true;
    var ent: nat, ri: nat, clust: nat := ent0, ri0, ent0 + 1;
    while i < total
      invariant i0 <= i <= total && inside
      invariant base + i == EntryPos(l.fs, ent) && clust == ent + 1
      invariant 0 <= ri < |xs| && xs[ri].start <= ent < xs[ri].end
      invariant ShowsFat(buffer, at, l.fs, xs, base, i)
      invariant forall b :: 0 <= b < buffer.Length && !(at <= b < at + i) ==> buffer[b] == old(buffer[b])
    {
      var last := LinkNext(l, ranges, exts, xs, buffer, at, base, i, ent, clust, ri, base + total, entEnd);
      i := i + EntryWidth(l.fs);
      clust, ent := clust + 1, ent + 1;
      if last {
        ri := ri + 1;
        if ri == fileCnt {
          return;
        }
        if ri >= |ranges| {
          return i, false;
        }
        NextFile(l, xs, ri, ent);
      }
    }
    BeforeLast(l, xs, ri, ent);
  }

  /** The entry of one cluster. */
  method LinkNext(l: Layout, ranges: seq<Range>, exts: seq<Ext>, ghost xs: seq<Extent>, buffer: array<byte>, at: nat,
                  ghost base: nat, i: nat, ent: nat, clust: nat, ri: nat, ghost end: nat, ghost entEnd: nat)
    returns (last: bool)
    requires !l.fs.FAT12? && IndexOk(l, ranges, exts, xs)
    requires ri < |xs| && xs[ri].start <= ent < xs[ri].end && clust == ent + 1
    requires base + i == EntryPos(l.fs, ent) && base + i < end == EntryPos(l.fs, entEnd)
    requires at + (end - base) <= buffer.Length
    requires ShowsFat(buffer, at, l.fs, xs, base, i)
    modifies buffer
    ensures last == (ent + 1 == xs[ri].end) && base + i + EntryWidth(l.fs) <= end
    ensures ShowsFat(buffer, at, l.fs, xs, base, i + EntryWidth(l.fs))
    ensures forall b :: 0 <= b < buffer.Length && !(at <= b < at + i + EntryWidth(l.fs)) ==> buffer[b] == old(buffer[b])
  {
    assert IndexedAt(ranges[ri], exts, xs[ri]);
    last := StoreLink(l, exts[ranges[ri].file].end, xs, ri, buffer, at, base, i, ent, clust);
  }

  /** Behind the end mark of a file the next file begins. */
  lemma NextFile(l: Layout, xs: seq<Extent>, ri: nat, ent: nat)
    requires Tiled(l, xs) && 0 < ri < |xs| && ent == xs[ri - 1].end
    ensures xs[ri].start <= ent < xs[ri].end
  {
    assert Chained(xs, ri - 1);
    assert ExtentOk(l, xs[ri]);
  }

  /** Inside a file the end of the last file is not reached. */
  lemma BeforeLast(l: Layout, xs: seq<Extent>, ri: nat, ent: nat)
    requires Tiled(l, xs) && ri < |xs| && xs[ri].start <= ent < xs[ri].end
    ensures ent < ClusterEnd(xs)
  {
    if ri < |xs| - 1 {
      TiledOrder(l, xs, ri, |xs| - 1);
      assert ExtentOk(l, xs[|xs| - 1]);
    }
  }

  /** Free entries are zero. */
  method ZeroEntries(buffer: array<byte>, at: nat, ghost fs: FileSys, ghost xs: seq<Extent>, ghost base: nat, i: nat,
                     total: nat)
    requires !fs.FAT12? && at + total <= buffer.Length && i <= total
    requires i == total || (base + i >= EntryPos(fs, ClusterEnd(xs)) && ClusterEnd(xs) >= 2)
    requires ShowsFat(buffer, at, fs, xs, base, i)
    modifies buffer
    ensures ShowsFat(buffer, at, fs, xs, base, total)
    ensures forall b :: 0 <= b < buffer.Length && !(at <= b < at + total) ==> buffer[b] == old(buffer[b])
  {
    var r := i;
    while r < total
      invariant i <= r <= total
      invariant ShowsFat(buffer, at, fs, xs, base, r)
      invariant forall b :: 0 <= b < buffer.Length && !(at <= b < at + r) ==> buffer[b] == old(buffer[b])
    {
      FreeByte(fs, xs, base + r);
      buffer[at + r] := 0;
      r := r + 1;
    }
  }

  lemma FreeByte(fs: FileSys, xs: seq<Extent>, j: nat)
    requires !fs.FAT12? && ClusterEnd(xs) >= 2 && j >= EntryPos(fs, ClusterEnd(xs))
    ensures FatByte(fs, xs, j) == 0
  {
    assert EntryOf(fs, j) >= ClusterEnd(xs);
  }

  /** The `n` bytes of the table from `base` on do not contain the end mark of the last file. */
  ghost predicate AvoidsLastMark(fs: FileSys, xs: seq<Extent>, base: nat, n: nat) {
    xs == [] || base + n < EntryPos(fs, ClusterEnd(xs)) || EntryPos(fs, ClusterEnd(xs)) <= base
  }

  /** `read_sector_fat` for FAT16 and FAT32: from any sector of the table on, the matching bytes of it. It stays
      `inside` the range table if and only if no file is empty or the slice does not contain the last end
      mark; otherwise `fat_next_file` reads behind it. */
  method ReadSectorFat(l: Layout, ranges: seq<Range>, exts: seq<Ext>, fileCnt: nat, dataClusterEnd: nat,
                       ghost xs: seq<Extent>, sector: nat, scnt: nat, buffer: array<byte>, at: nat)
    returns (inside: bool)
    requires !l.fs.FAT12? && SectorSize(l.bps) && IndexOk(l, ranges, exts, xs)
    requires |ranges| <= fileCnt && dataClusterEnd == ClusterEnd(xs)
    requires 0 < scnt && at + scnt * l.bps <= buffer.Length
    modifies buffer
    ensures inside == (fileCnt == |ranges| || AvoidsLastMark(l.fs, xs, sector * l.bps, scnt * l.bps))
    ensures inside ==> ShowsFat(buffer, at, l.fs, xs, sector * l.bps, scnt * l.bps)
    ensures forall b :: 0 <= b < buffer.Length && !(at <= b < at + scnt * l.bps) ==> buffer[b] == old(buffer[b])
  {
    var w, total := EntryWidth(l.fs), scnt * l.bps;
    var i, ent := 0, sector * (l.bps / w);
    ghost var base := sector * l.bps;
    SectorEntries(l.fs, l.bps, sector);
    SectorEntries(l.fs, l.bps, scnt);
    ClusterEndAtLeastTwo(l, xs);
    if sector == 0 {
      WriteReserved(buffer, at, l.fs, xs, w);
      i, ent := w + w, 2;
    }
    inside := WriteEntries(l, ranges, exts, fileCnt, dataClusterEnd, xs, buffer, at, base, i, total, ent,
                           sector * (l.bps / w) + scnt * (l.bps / w));
  }

  /** Everything behind the reserved entries: `i` bytes are written, and entry `ent` is the next. */
  method WriteEntries(l: Layout, ranges: seq<Range>, exts: seq<Ext>, fileCnt: nat, dataClusterEnd: nat,
                      ghost xs: seq<Extent>, buffer: array<byte>, at: nat, ghost base: nat, i: nat, total: nat,
                      ent: nat, ghost entEnd: nat) returns (inside: bool)
    requires !l.fs.FAT12? && IndexOk(l, ranges, exts, xs) && |ranges| <= fileCnt && dataClusterEnd == ClusterEnd(xs)
    requires at + total <= buffer.Length && i <= total && ent >= 2
    requires base + i == EntryPos(l.fs, ent) && base + total == EntryPos(l.fs, entEnd)
    requires ShowsFat(buffer, at, l.fs, xs, base, i)
    modifies buffer
    ensures inside == (fileCnt == |ranges| || ent >= ClusterEnd(xs) || base + total < EntryPos(l.fs, ClusterEnd(xs)))
    ensures inside ==> ShowsFat(buffer, at, l.fs, xs, base, total)
    ensures forall b :: 0 <= b < buffer.Length && !(at <= b < at + total) ==> buffer[b] == old(buffer[b])
  {
    inside := true;
    var done := i;
    ClusterEndAtLeastTwo(l, xs);
    var ri := FindFileFatEntry(l, ranges, fileCnt, dataClusterEnd, ent, exts, xs);
    if ri >= 0 {
      done, inside := FillEntries(l, ranges, exts, fileCnt, xs, buffer, at, base, i, total, ent, ri, entEnd);
      if !inside {
        return;
      }
    }
    ZeroEntries(buffer, at, l.fs, xs, base, done, total);
  }

  /** The smallest input for which it does not: a table of one file of one cluster, next to an empty file. */
  method EmptyFileExample(l: Layout, buffer: array<byte>) returns (inside: bool)
    requires l.fs.FAT16? && l.bps == 512 && l.spc > 0 && buffer.Length == 512
    modifies buffer
    ensures !inside
  {
    var exts := [Ext(2, 3, l.dataStart, l.dataStart + l.spc), Ext(0, 0, 0, 0)];
    var ranges := [Range(l.dataStart, l.dataStart + l.spc, 2, 3, 0)];
    ghost var xs := [Extent(2, 3, l.dataStart, l.dataStart + l.spc, FileData(1, [0]))];
    assert ExtentOk(l, xs[0]);
    assert IndexedAt(ranges[0], exts, xs[0]);
    inside := ReadSectorFat(l, ranges, exts, 2, 3, xs, 0, 1, buffer, 0);
  }

  /** Entries 0 and 1. */
  method WriteReserved(buffer: array<byte>, at: nat, fs: FileSys, ghost xs: seq<Extent>, w: nat)
    requires !fs.FAT12? && w == EntryWidth(fs) && at + w + w <= buffer.Length
    modifies buffer
    ensures ShowsFat(buffer, at, fs, xs, 0, w + w)
    ensures forall b :: 0 <= b < buffer.Length && !(at <= b < at + w + w) ==> buffer[b] == old(buffer[b])
  {
    StoreEntry(buffer, at, fs, xs, 0, 0, w, 0, MediaMark(fs));
    StoreEntry(buffer, at, fs, xs, 0, w, w, 1, EndMark(fs));
  }

  /** A sector holds a whole number of entries, at least two. */
  lemma SectorEntries(fs: FileSys, bps: nat, n: nat)
    requires SectorSize(bps)
    ensures n * bps == EntryPos(fs, n * (bps / EntryWidth(fs)))
    ensures ByteOf(fs, n * bps) == 0
    ensures n > 0 ==> n * (bps / EntryWidth(fs)) >= 2 && n * bps >= 8
  {
    var per := bps / EntryWidth(fs);
    assert bps == EntryPos(fs, per) && per >= 2;
    TimesWidth(n, per, EntryWidth(fs));
    EntryIndex(fs, n * per, 0);
    if n > 0 {
      MulMono(1, n, per);
    }
  }

  lemma TimesWidth(n: nat, per: nat, w: nat)
    ensures n * (w * per) == w * (n * per)
  {
  }
}
