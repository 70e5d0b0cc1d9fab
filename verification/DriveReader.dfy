/** Reading any part of the device (libvdf/read.c). */
module DriveReader {
  import opened Bytes
  import opened Volume
  import opened FileTree
  import opened Directory
  import opened DirReader
  import opened FatReader
  import opened DataReader
  import opened BootRecords
  import opened BootReader

  /** The fields of a clean drive that reading looks at. */
  datatype Served = Served(k: Disk, fents: seq<Fent>, ranges: seq<Range>, fileCnt: nat,
                           dataEnd: nat, dataClusterEnd: nat, serial: u32, title: Label)

  datatype Region = ReservedRegion | FatRegion | RootRegion | DataRegion

  /** What reading one region relies on. */
  ghost predicate Ready(r: Region, d: Served, v: Volume, ps: seq<Payload>) {
    match r
    case ReservedRegion =>
      && d.dataClusterEnd == ClusterEnd(v.xs) >= 2
      && |d.k.exts| > 0 && v.boot == BootRecord(v.l, d.serial, d.title, d.k.exts[ROOT].start)
      && v.mbr == MbrRecord(v.l, d.serial)
    case FatRegion =>
      && IndexOk(v.l, d.ranges, d.k.exts, v.xs) && |d.ranges| <= d.fileCnt && d.dataClusterEnd == ClusterEnd(v.xs)
      && !v.l.fs.FAT12? && TableOk(v)
    case RootRegion =>
      && Payloads(d.k, ps) && ReadyDirs(d.k, d.fents)
      && |ps| > 0 && d.k.t.links[ROOT].isDir && ps[ROOT] == DirData(v.root)
    case DataRegion =>
      DataOk(d.k, ps, d.fents, d.ranges, v.xs) && |d.ranges| <= d.fileCnt && d.dataEnd == SectorEnd(v.l, v.xs)
  }

  /** The drive is clean and stands for volume `v`; `ps` are the payloads of its files. */
  ghost predicate Serves(d: Served, v: Volume, ps: seq<Payload>) {
    && v.l == d.k.l && Regions(v.l) && !v.l.fs.FAT12?
    && forall r: Region :: Ready(r, d, v, ps)
  }

  /** Bytes of the buffer show bytes base, base + 1, ... of the partition. */
  ghost predicate ShowsPart(buffer: array<byte>, at: nat, v: Volume, base: nat, n: nat)
    reads buffer
    requires Regions(v.l) && !v.l.fs.FAT12? && at + n <= buffer.Length
  {
    forall b :: at <= b < at + n ==> Shows(PartCell(v, base + (b - at)), buffer[b])
  }

  /** Sector `k` starts at byte `pos`. */
  predicate StartsAt(pos: nat, k: nat, bps: nat) {
    pos == k * bps
  }

  /** Sector `k` of a table holds the last byte of the last end mark. */
  ghost predicate HoldsMark(v: Volume, k: nat) {
    forall pos: nat {:trigger StartsAt(pos, k, v.l.bps)} ::
      StartsAt(pos, k, v.l.bps) ==> pos < EntryPos(v.l.fs, ClusterEnd(v.xs)) <= pos + v.l.bps
  }

  /** The device sectors from `from` up to `to` do not include the last end mark of the table at `start`. */
  ghost predicate AvoidsMarkAt(v: Volume, start: nat, from: nat, to: nat) {
    forall k: nat {:trigger HoldsMark(v, k)} ::
      k < v.l.fatSectors && from <= v.l.mbrSectors + start + k < to ==> !HoldsMark(v, k)
  }

  /** A read of the device sectors from `from` up to `to` stays inside the range table: no file is empty, or it
      avoids the last end mark in both tables (libvdf/fat.c:80-84). */
  ghost predicate Askable(d: Served, v: Volume, from: nat, to: nat)
    requires v.l.bps > 0
  {
    || d.fileCnt == |d.ranges|
    || v.xs == []
    || (AvoidsMarkAt(v, v.l.fat1Start, from, to) && AvoidsMarkAt(v, v.l.fat2Start, from, to))
  }

  /** A slice of one table avoids the mark exactly if it avoids the sector of the mark. */
  lemma MarkAvoided(v: Volume, start: nat, k: nat, want: nat)
    requires Regions(v.l) && Tiled(v.l, v.xs) && v.xs != [] && k + want <= v.l.fatSectors
    ensures AvoidsLastMark(v.l.fs, v.xs, k * v.l.bps, want * v.l.bps) <==>
            AvoidsMarkAt(v, start, v.l.mbrSectors + start + k, v.l.mbrSectors + start + k + want)
  {
    ClusterEndAtLeastTwo(v.l, v.xs);
    var bps := v.l.bps;
    MulSplit(k, want, bps);
    if !AvoidsLastMark(v.l.fs, v.xs, k * bps, want * bps) {
      var q := MarkInSlice(bps, EntryPos(v.l.fs, ClusterEnd(v.xs)), k, want);
      assert HoldsMark(v, q);
    }
    forall q: nat {:trigger HoldsMark(v, q)} | k <= q < k + want && HoldsMark(v, q)
      ensures !AvoidsLastMark(v.l.fs, v.xs, k * bps, want * bps)
    {
      SliceHasMark(v, k, want, q);
    }
  }

  lemma MarkInSlice(bps: nat, e: nat, k: nat, want: nat) returns (q: nat)
    requires 0 < bps && k * bps < e <= (k + want) * bps
    ensures k <= q < k + want && q * bps < e <= q * bps + bps
  {
    q := (e - 1) / bps;
    if q < k {
      MulSplit(q, 1, bps);
      MulMono(q + 1, k, bps);
    }
    if k + want <= q {
      MulMono(k + want, q, bps);
    }
  }

  lemma SliceHasMark(v: Volume, k: nat, want: nat, q: nat)
    requires k <= q < k + want && HoldsMark(v, q)
    ensures k * v.l.bps < EntryPos(v.l.fs, ClusterEnd(v.xs)) <= (k + want) * v.l.bps
  {
    assert StartsAt(q * v.l.bps, q, v.l.bps);
    MulMono(k, q, v.l.bps);
    MulSplit(q, 1, v.l.bps);
    MulMono(q + 1, k + want, v.l.bps);
  }

  // ---------------------------------------------------------------- outcomes

  /** How a read ends: with all its sectors, at an unreadable file, or behind the range table. */
  datatype Status = Complete | Failed | Overrun

  /** No sector of the device from `from` up to `to` needs an unreadable file. */
  ghost predicate AllReadable(d: Served, v: Volume, from: nat, to: nat) {
    forall s {:trigger Unreadable(d.k, d.ranges, v.xs, s)} ::
      from <= v.l.mbrSectors + s < to ==> !Unreadable(d.k, d.ranges, v.xs, s)
  }

  /** The outcome of reading the device sectors from `from` up to `to`. */
  ghost function Expected(d: Served, v: Volume, from: nat, to: nat): Status
    requires v.l.bps > 0
  {
    if !Askable(d, v, from, to) then Overrun else if !AllReadable(d, v, from, to) then Failed else Complete
  }

  /** The marks lie in front of the data area. */
  lemma AskableBehind(d: Served, v: Volume, from: nat, to: nat)
    requires Regions(v.l) && v.l.mbrSectors + v.l.rootStart <= from
    ensures Askable(d, v, from, to)
  {
  }

  lemma AskableReserved(d: Served, v: Volume, from: nat, to: nat)
    requires Regions(v.l) && to <= v.l.mbrSectors + v.l.fat1Start
    ensures Askable(d, v, from, to)
  {
  }

  /** Sectors before the data area never need a file. */
  lemma NoFilesBefore(d: Served, v: Volume, ps: seq<Payload>, from: nat, to: nat)
    requires Serves(d, v, ps) && to <= v.l.mbrSectors + v.l.dataStart
    ensures AllReadable(d, v, from, to)
  {
    assert Ready(DataRegion, d, v, ps);
    forall s {:trigger Unreadable(d.k, d.ranges, v.xs, s)} | from <= v.l.mbrSectors + s < to
      ensures !Unreadable(d.k, d.ranges, v.xs, s)
    {
      if Unreadable(d.k, d.ranges, v.xs, s) {
        var i :| BadIn(d.k, d.ranges, v.xs, i, s);
        InDataArea(v.l, v.xs, i);
      }
    }
  }

  /** A read in two parts ends like its first part that does not complete. */
  lemma ExpectedJoin(d: Served, v: Volume, ps: seq<Payload>, a: nat, b: nat, c: nat)
    requires Serves(d, v, ps) && a <= b <= c
    ensures Expected(d, v, a, c) ==
            if Expected(d, v, a, b).Complete? then Expected(d, v, b, c) else Expected(d, v, a, b)
  {
    if Expected(d, v, a, b).Failed? {
      if b <= v.l.mbrSectors + v.l.dataStart {
        NoFilesBefore(d, v, ps, a, b);
      }
      AskableBehind(d, v, b, c);
    }
    ReadableJoin(d, v, a, b, c);
  }

  lemma ReadableJoin(d: Served, v: Volume, a: nat, b: nat, c: nat)
    requires a <= b <= c
    ensures AllReadable(d, v, a, c) == (AllReadable(d, v, a, b) && AllReadable(d, v, b, c))
  {
    if AllReadable(d, v, a, b) && AllReadable(d, v, b, c) {
      forall s {:trigger Unreadable(d.k, d.ranges, v.xs, s)} | a <= v.l.mbrSectors + s < c
        ensures !Unreadable(d.k, d.ranges, v.xs, s)
      {
        assert v.l.mbrSectors + s < b || b <= v.l.mbrSectors + s;
      }
    }
  }

  // ---------------------------------------------------------------- where a read may start

  /** A read that starts at device sector `s` does not start inside a labelled root directory behind its first
      sector, unless that directory fits into it. */
  ghost predicate Begins(d: Served, v: Volume, s: nat) {
    && DiskShape(d.k) && |d.fents| == |d.k.sizes| > 0
    && (|| LabelSafe(d.k, d.fents, ROOT)
        || (&& !(v.l.mbrSectors + v.l.rootStart < s < v.l.mbrSectors + v.l.dataStart)
            && forall i :: 0 <= i < |d.ranges| && d.ranges[i].file == ROOT ==>
                             !(v.l.mbrSectors + d.ranges[i].sectstart < s < v.l.mbrSectors + d.ranges[i].sectend)))
  }

  /** At the start of the data area no read starts inside a directory. */
  lemma DataStartBegins(d: Served, v: Volume, ps: seq<Payload>)
    requires Serves(d, v, ps)
    ensures Begins(d, v, v.l.mbrSectors + v.l.dataStart)
    ensures Begins(d, v, v.l.mbrSectors + v.l.rootStart)
  {
    assert Ready(RootRegion, d, v, ps);
    assert Ready(DataRegion, d, v, ps);
    forall i | 0 <= i < |d.ranges|
      ensures d.ranges[i].sectstart >= v.l.dataStart
    {
      assert IndexedAt(d.ranges[i], d.k.exts, v.xs[i]);
      InDataArea(v.l, v.xs, i);
    }
  }

  // ---------------------------------------------------------------- one region at a time

  /** `want` sectors from `sector` on end at or before sector `limit`. */
  lemma SectorsEnd(sector: nat, want: nat, limit: nat, bps: nat)
    requires sector + want <= limit
    ensures sector * bps + want * bps <= limit * bps
  {
    MulSplit(sector, want, bps);
    MulMono(sector + want, limit, bps);
  }

  method BootPart(d: Served, ghost v: Volume, ghost ps: seq<Payload>, sector: nat, want: nat, buffer: array<byte>,
                  at: nat)
    requires Serves(d, v, ps) && sector + want <= v.l.fat1Start && at + want * v.l.bps <= buffer.Length
    modifies buffer
    ensures ShowsPart(buffer, at, v, sector * v.l.bps, want * v.l.bps)
    ensures forall b :: 0 <= b < buffer.Length && !(at <= b < at + want * v.l.bps) ==> buffer[b] == old(buffer[b])
  {
    assert Ready(ReservedRegion, d, v, ps);
    SectorsEnd(sector, want, v.l.fat1Start, v.l.bps);
    ReadSectorBoot(d.k.l, d.serial, d.title, d.k.exts[ROOT].start, d.dataClusterEnd, v, sector, want, buffer, at);
    BootIsPart(buffer, at, v, sector * v.l.bps, want * v.l.bps);
  }

  lemma BootIsPart(buffer: array<byte>, at: nat, v: Volume, base: nat, n: nat)
    requires Regions(v.l) && !v.l.fs.FAT12? && at + n <= buffer.Length && base + n <= v.l.fat1Start * v.l.bps
    requires ShowsBoot(buffer, at, v, base, n)
    ensures ShowsPart(buffer, at, v, base, n)
  {
    forall b | at <= b < at + n
      ensures Shows(PartCell(v, base + (b - at)), buffer[b])
    {
      assert PartCell(v, base + (b - at)) == BootAt(v, base + (b - at));
    }
  }

  method ReadTable(d: Served, ghost v: Volume, ghost ps: seq<Payload>, sector: nat, scnt: nat, buffer: array<byte>,
                   at: nat)
    returns (inside: bool)
    requires Serves(d, v, ps) && 0 < scnt && sector + scnt <= v.l.fatSectors && at + scnt * v.l.bps <= buffer.Length
    modifies buffer
    ensures inside == (d.fileCnt == |d.ranges| || AvoidsLastMark(v.l.fs, v.xs, sector * v.l.bps, scnt * v.l.bps))
    ensures inside ==>
            forall b :: at <= b < at + scnt * v.l.bps ==> Shows(TableCell(v, sector * v.l.bps + (b - at)), buffer[b])
    ensures forall b :: 0 <= b < buffer.Length && !(at <= b < at + scnt * v.l.bps) ==> buffer[b] == old(buffer[b])
  {
    assert Ready(FatRegion, d, v, ps);
    inside := ReadSectorFat(d.k.l, d.ranges, d.k.exts, d.fileCnt, d.dataClusterEnd, v.xs, sector, scnt, buffer, at);
    if inside {
      SectorsEnd(sector, scnt, v.l.fatSectors, v.l.bps);
      FatIsTable(buffer, at, v, sector * v.l.bps, scnt * v.l.bps);
    }
  }

  lemma FatIsTable(buffer: array<byte>, at: nat, v: Volume, base: nat, n: nat)
    requires !v.l.fs.FAT12? && TableOk(v) && at + n <= buffer.Length && base + n <= |v.fat|
    requires ShowsFat(buffer, at, v.l.fs, v.xs, base, n)
    ensures forall b :: at <= b < at + n ==> Shows(TableCell(v, base + (b - at)), buffer[b])
  {
    forall b | at <= b < at + n
      ensures Shows(TableCell(v, base + (b - at)), buffer[b])
    {
      assert TableByte(v, base + (b - at));
    }
  }

  /** Either copy of the table; `start` is its first sector. */
  method FatPart(d: Served, ghost v: Volume, ghost ps: seq<Payload>, start: nat, sector: nat, want: nat,
                 buffer: array<byte>, at: nat) returns (inside: bool)
    requires Serves(d, v, ps) && (start == v.l.fat1Start || start == v.l.fat2Start)
    requires 0 < want && start <= sector && sector + want <= start + v.l.fatSectors
    requires at + want * v.l.bps <= buffer.Length
    modifies buffer
    ensures inside == Askable(d, v, v.l.mbrSectors + sector, v.l.mbrSectors + sector + want)
    ensures inside ==> ShowsPart(buffer, at, v, sector * v.l.bps, want * v.l.bps)
    ensures forall b :: 0 <= b < buffer.Length && !(at <= b < at + want * v.l.bps) ==> buffer[b] == old(buffer[b])
  {
    TableAskable(d, v, ps, start, sector - start, want);
    inside := ReadTable(d, v, ps, sector - start, want, buffer, at);
    if inside {
      FatSectorsShown(buffer, at, v, start, sector - start, want);
    }
  }

  lemma FatSectorsShown(buffer: array<byte>, at: nat, v: Volume, start: nat, k: nat, want: nat)
    requires Regions(v.l) && !v.l.fs.FAT12? && (start == v.l.fat1Start || start == v.l.fat2Start)
    requires k + want <= v.l.fatSectors && at + want * v.l.bps <= buffer.Length
    requires forall b :: at <= b < at + want * v.l.bps ==> Shows(TableCell(v, k * v.l.bps + (b - at)), buffer[b])
    ensures ShowsPart(buffer, at, v, (start + k) * v.l.bps, want * v.l.bps)
  {
    var base, n := k * v.l.bps, want * v.l.bps;
    SectorsEnd(k, want, v.l.fatSectors, v.l.bps);
    FatIsPart(buffer, at, v, start, start * v.l.bps, base, n);
    MulSplit(start, k, v.l.bps);
  }

  lemma TableAskable(d: Served, v: Volume, ps: seq<Payload>, start: nat, k: nat, want: nat)
    requires Serves(d, v, ps) && (start == v.l.fat1Start || start == v.l.fat2Start) && k + want <= v.l.fatSectors
    ensures Askable(d, v, v.l.mbrSectors + start + k, v.l.mbrSectors + start + k + want) <==>
            d.fileCnt == |d.ranges| || AvoidsLastMark(v.l.fs, v.xs, k * v.l.bps, want * v.l.bps)
  {
    assert Ready(FatRegion, d, v, ps);
    if v.xs != [] {
      MarkAvoided(v, start, k, want);
    }
  }

  lemma FatIsPart(buffer: array<byte>, at: nat, v: Volume, start: nat, lo: nat, base: nat, n: nat)
    requires Regions(v.l) && !v.l.fs.FAT12? && at + n <= buffer.Length
    requires (start == v.l.fat1Start || start == v.l.fat2Start) && lo == start * v.l.bps
    requires base + n <= v.l.fatSectors * v.l.bps
    requires forall b :: at <= b < at + n ==> Shows(TableCell(v, base + (b - at)), buffer[b])
    ensures ShowsPart(buffer, at, v, lo + base, n)
  {
    forall b | at <= b < at + n
      ensures Shows(PartCell(v, lo + base + (b - at)), buffer[b])
    {
      var j := base + (b - at);
      PartInFat(v, start, lo, j);
      assert PartCell(v, lo + base + (b - at)) == PartCell(v, lo + j);
    }
  }

  method ReadRoot(d: Served, ghost v: Volume, ghost ps: seq<Payload>, sector: nat, scnt: nat, buffer: array<byte>,
                  at: nat)
    requires Serves(d, v, ps) && 0 < scnt && at + scnt * v.l.bps <= buffer.Length
    requires DiskShape(d.k) && |d.fents| == |d.k.sizes| > 0 && Steady(d.k, d.fents, ROOT, sector)
    modifies buffer
    ensures forall b :: at <= b < at + scnt * v.l.bps ==> Shows(DirCell(v.root, sector * v.l.bps + (b - at)), buffer[b])
    ensures forall b :: 0 <= b < buffer.Length && !(at <= b < at + scnt * v.l.bps) ==> buffer[b] == old(buffer[b])
  {
    assert Ready(RootRegion, d, v, ps);
    ReadDirSectors(d.k, ps, d.fents, ROOT, sector, scnt, buffer, at);
  }

  method RootPart(d: Served, ghost v: Volume, ghost ps: seq<Payload>, sector: nat, want: nat, buffer: array<byte>,
                  at: nat)
    requires Serves(d, v, ps) && 0 < want && v.l.rootStart <= sector && sector + want <= v.l.dataStart
    requires at + want * v.l.bps <= buffer.Length
    requires Begins(d, v, v.l.mbrSectors + sector)
    modifies buffer
    ensures ShowsPart(buffer, at, v, sector * v.l.bps, want * v.l.bps)
    ensures forall b :: 0 <= b < buffer.Length && !(at <= b < at + want * v.l.bps) ==> buffer[b] == old(buffer[b])
  {
    ReadRoot(d, v, ps, sector - d.k.l.rootStart, want, buffer, at);
    RootSectorsShown(buffer, at, v, sector, want);
  }

  lemma RootSectorsShown(buffer: array<byte>, at: nat, v: Volume, sector: nat, want: nat)
    requires Regions(v.l) && !v.l.fs.FAT12? && v.l.rootStart <= sector && sector + want <= v.l.dataStart
    requires at + want * v.l.bps <= buffer.Length
    requires forall b :: at <= b < at + want * v.l.bps ==>
               Shows(DirCell(v.root, Times(sector - v.l.rootStart, v.l.bps) + (b - at)), buffer[b])
    ensures ShowsPart(buffer, at, v, sector * v.l.bps, want * v.l.bps)
  {
    MulSplit(v.l.rootStart, sector - v.l.rootStart, v.l.bps);
    SectorsEnd(sector, want, v.l.dataStart, v.l.bps);
    RootIsPart(buffer, at, v, Times(sector - v.l.rootStart, v.l.bps), want * v.l.bps);
  }

  lemma RootIsPart(buffer: array<byte>, at: nat, v: Volume, base: nat, n: nat)
    requires Regions(v.l) && !v.l.fs.FAT12? && at + n <= buffer.Length
    requires v.l.rootStart * v.l.bps + base + n <= v.l.dataStart * v.l.bps
    requires forall b :: at <= b < at + n ==> Shows(DirCell(v.root, base + (b - at)), buffer[b])
    ensures ShowsPart(buffer, at, v, v.l.rootStart * v.l.bps + base, n)
  {
    var l := v.l;
    Boundaries(l);
    forall b | at <= b < at + n
      ensures Shows(PartCell(v, l.rootStart * l.bps + base + (b - at)), buffer[b])
    {
      var o := l.rootStart * l.bps + base + (b - at);
      assert PartCell(v, o) == DirCell(v.root, base + (b - at));
    }
  }

  method DataPart(d: Served, ghost v: Volume, ghost ps: seq<Payload>, sector: nat, want: nat, buffer: array<byte>,
                  at: nat)
    returns (ok: bool)
    requires Serves(d, v, ps) && v.l.dataStart <= sector && at + want * v.l.bps <= buffer.Length
    requires Begins(d, v, v.l.mbrSectors + sector)
    modifies buffer
    ensures ok == forall s {:trigger Unreadable(d.k, d.ranges, v.xs, s)} ::
                    sector <= s < sector + want ==> !Unreadable(d.k, d.ranges, v.xs, s)
    ensures ok ==> ShowsPart(buffer, at, v, sector * v.l.bps, want * v.l.bps)
    ensures forall b :: 0 <= b < buffer.Length && !(at <= b < at + want * v.l.bps) ==> buffer[b] == old(buffer[b])
  {
    var l := d.k.l;
    MulSplit(l.dataStart, sector - l.dataStart, l.bps);
    assert Ready(DataRegion, d, v, ps);
    ok := ReadSectorData(d.k, ps, d.fents, d.ranges, d.fileCnt, d.dataEnd, v.xs, sector, want, buffer, at);
    if ok {
      DataIsPart(buffer, at, v, Times(sector - l.dataStart, l.bps), want * l.bps);
    }
  }

  lemma DataIsPart(buffer: array<byte>, at: nat, v: Volume, base: nat, n: nat)
    requires Regions(v.l) && !v.l.fs.FAT12? && at + n <= buffer.Length
    requires ShowsData(buffer, at, v.l.bps, v.xs, base, n)
    ensures ShowsPart(buffer, at, v, v.l.dataStart * v.l.bps + base, n)
  {
    var lo := v.l.dataStart * v.l.bps;
    forall b | at <= b < at + n
      ensures Shows(PartCell(v, lo + base + (b - at)), buffer[b])
    {
      PartInData(v, lo, base + (b - at));
      assert lo + base + (b - at) == lo + (base + (b - at));
    }
  }

  // ---------------------------------------------------------------- a run of sectors of the device

  /** Bytes of the buffer show bytes base, base + 1, ... of the device. */
  ghost predicate ShowsImage(buffer: array<byte>, at: nat, img: seq<Cell>, base: nat, n: nat)
    reads buffer
  {
    && at + n <= buffer.Length && base + n <= |img|
    && forall b :: at <= b < at + n ==> Shows(img[base + (b - at)], buffer[b])
  }

  lemma PartInImage(v: Volume, img: seq<Cell>, m: nat, o: nat)
    requires IsImage(v, img) && m == v.l.mbrSectors * v.l.bps && m + o < |img|
    ensures img[m + o] == PartCell(v, o)
  {
    assert ImageByte(v, img, m + o);
  }

  lemma PartIsImage(buffer: array<byte>, at: nat, v: Volume, img: seq<Cell>, m: nat, base: nat, n: nat)
    requires IsImage(v, img) && at + n <= buffer.Length && m == v.l.mbrSectors * v.l.bps && m + base + n <= |img|
    requires ShowsPart(buffer, at, v, base, n)
    ensures ShowsImage(buffer, at, img, m + base, n)
  {
    forall b | at <= b < at + n
      ensures Shows(img[m + base + (b - at)], buffer[b])
    {
      PartInImage(v, img, m, base + (b - at));
      assert m + base + (b - at) == m + (base + (b - at));
    }
  }

  lemma ShowsMoreImage(buffer: array<byte>, at: nat, img: seq<Cell>, base: nat, n: nat, m: nat)
    requires ShowsImage(buffer, at, img, base, n) && ShowsImage(buffer, at + n, img, base + n, m)
    ensures ShowsImage(buffer, at, img, base, n + m)
  {
    forall b | at <= b < at + n + m
      ensures Shows(img[base + (b - at)], buffer[b])
    {
      if b >= at + n {
        assert base + (b - at) == base + n + (b - (at + n));
      }
    }
  }

  /** A drive, the volume it stands for and the image of that volume. */
  ghost predicate Shown(d: Served, v: Volume, ps: seq<Payload>, img: seq<Cell>) {
    Serves(d, v, ps) && IsImage(v, img)
  }

  /** Sector `s` of the partition is sector mbrSectors + s of the device. */
  lemma DeviceOffset(l: Layout, sector: nat, want: nat)
    requires sector + want <= l.sectors
    ensures l.mbrSectors * l.bps + sector * l.bps == (l.mbrSectors + sector) * l.bps
    ensures l.mbrSectors * l.bps + sector * l.bps + want * l.bps <= ImageBytes(l)
  {
    MulSplit(l.mbrSectors, sector, l.bps);
    MulSplit(l.mbrSectors + sector, want, l.bps);
    MulMono(l.mbrSectors + sector + want, l.sectors + l.mbrSectors, l.bps);
  }

  lemma PartSectorsShown(buffer: array<byte>, at: nat, v: Volume, img: seq<Cell>, sector: nat, want: nat)
    requires IsImage(v, img) && sector + want <= v.l.sectors && at + want * v.l.bps <= buffer.Length
    requires ShowsPart(buffer, at, v, sector * v.l.bps, want * v.l.bps)
    ensures ShowsImage(buffer, at, img, (v.l.mbrSectors + sector) * v.l.bps, want * v.l.bps)
  {
    DeviceOffset(v.l, sector, want);
    PartIsImage(buffer, at, v, img, v.l.mbrSectors * v.l.bps, sector * v.l.bps, want * v.l.bps);
  }

  /** `want` sectors of the partition from `sector` on, all in the region `r`. */
  predicate InRegion(r: Region, copy: nat, l: Layout, sector: nat, want: nat) {
    match r
    case ReservedRegion => sector + want <= l.fat1Start
    case FatRegion =>
      (copy == l.fat1Start || copy == l.fat2Start) && copy <= sector && sector + want <= copy + l.fatSectors
    case RootRegion => l.rootStart <= sector && sector + want <= l.dataStart
    case DataRegion => l.dataStart <= sector
  }

  /** One region. */
  method ReadRegion(r: Region, copy: nat, d: Served, ghost v: Volume, ghost ps: seq<Payload>, ghost img: seq<Cell>,
                    sector: nat, want: nat, buffer: array<byte>, at: nat) returns (s: Status)
    requires Shown(d, v, ps, img) && 0 < want && sector + want <= v.l.sectors && at + want * v.l.bps <= buffer.Length
    requires InRegion(r, copy, v.l, sector, want)
    requires Begins(d, v, v.l.mbrSectors + sector)
    modifies buffer
    ensures s == Expected(d, v, v.l.mbrSectors + sector, v.l.mbrSectors + sector + want)
    ensures s.Complete? ==> ShowsImage(buffer, at, img, (v.l.mbrSectors + sector) * v.l.bps, want * v.l.bps)
    ensures forall b :: 0 <= b < buffer.Length && !(at <= b < at + want * v.l.bps) ==> buffer[b] == old(buffer[b])
  {
    s := ReadPart(r, copy, d, v, ps, sector, want, buffer, at);
    if s.Complete? {
      PartSectorsShown(buffer, at, v, img, sector, want);
    }
  }

  method ReadPart(r: Region, copy: nat, d: Served, ghost v: Volume, ghost ps: seq<Payload>, sector: nat, want: nat,
                  buffer: array<byte>, at: nat) returns (s: Status)
    requires Serves(d, v, ps) && 0 < want && sector + want <= v.l.sectors && at + want * v.l.bps <= buffer.Length
    requires InRegion(r, copy, v.l, sector, want)
    requires Begins(d, v, v.l.mbrSectors + sector)
    modifies buffer
    ensures s == Expected(d, v, v.l.mbrSectors + sector, v.l.mbrSectors + sector + want)
    ensures s.Complete? ==> ShowsPart(buffer, at, v, sector * v.l.bps, want * v.l.bps)
    ensures forall b :: 0 <= b < buffer.Length && !(at <= b < at + want * v.l.bps) ==> buffer[b] == old(buffer[b])
  {
    ghost var from, to := v.l.mbrSectors + sector, v.l.mbrSectors + sector + want;
    s := Complete;
    match r {
      case ReservedRegion =>
        BootPart(d, v, ps, sector, want, buffer, at);
        AskableReserved(d, v, from, to);
        NoFilesBefore(d, v, ps, from, to);
      case FatRegion =>
        var inside := FatPart(d, v, ps, copy, sector, want, buffer, at);
        s := if inside then Complete else Overrun;
        NoFilesBefore(d, v, ps, from, to);
      case RootRegion =>
        RootPart(d, v, ps, sector, want, buffer, at);
        AskableBehind(d, v, from, to);
        NoFilesBefore(d, v, ps, from, to);
      case DataRegion =>
        var ok := DataPart(d, v, ps, sector, want, buffer, at);
        s := if ok then Complete else Failed;
        AskableBehind(d, v, from, to);
        AllReadableShift(d, v, sector, want);
    }
  }

  /** The range [from, to) of partition sectors that region `r` covers; `copy` tells the two tables apart. */
  function RegionStart(r: Region, copy: nat, l: Layout): nat {
    match r
    case ReservedRegion => 0
    case FatRegion => copy
    case RootRegion => l.rootStart
    case DataRegion => l.dataStart
  }

  function RegionEnd(r: Region, copy: nat, l: Layout): nat {
    match r
    case ReservedRegion => l.fat1Start
    case FatRegion => copy + l.fatSectors
    case RootRegion => l.dataStart
    case DataRegion => l.sectors
  }

  /** The first `cnt` sectors of the device from `sector0` on are in the buffer from `at0` on. */
  ghost predicate Filled(buffer: array<byte>, at0: nat, l: Layout, img: seq<Cell>, sector0: nat, cnt: nat)
    reads buffer
  {
    ShowsImage(buffer, at0, img, sector0 * l.bps, cnt * l.bps)
  }

  lemma FilledMore(buffer: array<byte>, at0: nat, l: Layout, img: seq<Cell>, sector0: nat, cnt: nat, want: nat)
    requires Filled(buffer, at0, l, img, sector0, cnt)
    requires ShowsImage(buffer, at0 + cnt * l.bps, img, (sector0 + cnt) * l.bps, want * l.bps)
    ensures Filled(buffer, at0, l, img, sector0, cnt + want)
  {
    MulSplit(sector0, cnt, l.bps);
    MulSplit(cnt, want, l.bps);
    ShowsMoreImage(buffer, at0, img, sector0 * l.bps, cnt * l.bps, want * l.bps);
  }

  lemma Room(at0: nat, cnt: nat, want: nat, total: nat, bps: nat)
    requires cnt + want <= total
    ensures at0 <= at0 + cnt * bps <= at0 + cnt * bps + want * bps <= at0 + total * bps
  {
    MulMono(0, cnt, bps);
    MulMono(0, want, bps);
    MulSplit(cnt, want, bps);
    MulMono(cnt + want, total, bps);
  }

  /** How many of `rem` sectors from `sector` on are read before `limit`, in 32 bits. */
  function Clip(sector: nat, rem: nat, limit: nat): nat {
    if sector + rem >= limit then Wrap32(limit - sector) else rem
  }

  /** From a start inside the limit nothing wraps. */
  method WantInside(sector: nat, rem: nat, limit: nat) returns (want: nat)
    requires sector <= limit < TWO32
    ensures want == if sector + rem >= limit then limit - sector else rem
  {
    want := Clip(sector, rem, limit);
  }

  /** A start behind the end of the drive is not refused. The number of sectors to read then wraps, and the call
      writes behind the buffer exactly if the request is shorter than that number. */
  lemma ClipBehindEnd(sector: nat, rem: nat, limit: nat)
    requires limit < sector < TWO32
    ensures Clip(sector, rem, limit) == TWO32 - (sector - limit)
    ensures Clip(sector, rem, limit) > rem <==> rem < TWO32 - (sector - limit)
  {
    assert Wrap32(limit - sector) == limit - sector + TWO32;
  }

  lemma AllReadableShift(d: Served, v: Volume, sector: nat, want: nat)
    ensures AllReadable(d, v, v.l.mbrSectors + sector, v.l.mbrSectors + sector + want) ==
            (forall s {:trigger Unreadable(d.k, d.ranges, v.xs, s)} ::
               sector <= s < sector + want ==> !Unreadable(d.k, d.ranges, v.xs, s))
  {
  }

  lemma NothingExpected(d: Served, v: Volume, s: nat)
    requires v.l.bps > 0
    ensures Expected(d, v, s, s).Complete?
  {
  }

  /** Where a request from `sector0` on stands after `cnt` sectors: at its start or at the start of a region. */
  predicate GoesOn(l: Layout, sector0: nat, cnt: nat) {
    || cnt == 0
    || sector0 + cnt <= l.mbrSectors + l.rootStart
    || sector0 + cnt == l.mbrSectors + l.dataStart
  }

  /** One block of `vdf_read_sectors`: if the reading position lies in region `r`, read up to its end. */
  method Block(r: Region, copy: nat, d: Served, ghost v: Volume, ghost ps: seq<Payload>, ghost img: seq<Cell>,
               sector0: nat, total: nat, cnt0: nat, buffer: array<byte>, at0: nat) returns (s: Status, cnt: nat)
    requires Shown(d, v, ps, img) && at0 + total * v.l.bps <= buffer.Length && cnt0 < total
    requires r.FatRegion? ==> copy == v.l.fat1Start || copy == v.l.fat2Start
    requires v.l.mbrSectors + RegionStart(r, copy, v.l) <= sector0 + cnt0
    requires Begins(d, v, sector0) && GoesOn(v.l, sector0, cnt0)
    requires Filled(buffer, at0, v.l, img, sector0, cnt0) && Expected(d, v, sector0, sector0 + cnt0).Complete?
    modifies buffer
    ensures cnt0 <= cnt <= total
    ensures s == Expected(d, v, sector0, sector0 + cnt)
    ensures s.Complete? ==> Filled(buffer, at0, v.l, img, sector0, cnt)
    ensures cnt == total || v.l.mbrSectors + RegionEnd(r, copy, v.l) <= sector0 + cnt
    ensures cnt == cnt0 || sector0 + cnt <= v.l.mbrSectors + RegionEnd(r, copy, v.l)
    ensures forall b :: 0 <= b < buffer.Length && !(at0 <= b < at0 + total * v.l.bps) ==> buffer[b] == old(buffer[b])
  {
    s, cnt := Complete, cnt0;
    var l := d.k.l;
    var sector: nat := sector0 + cnt0 - l.mbrSectors;
    var limit := RegionEnd(r, copy, l);
    if sector < limit {
      var want := WantInside(sector, total - cnt, limit);
      s := BlockRead(r, copy, d, v, ps, img, sector0, total, cnt0, sector, want, buffer, at0);
      cnt := cnt + want;
    }
  }

  method BlockRead(r: Region, copy: nat, d: Served, ghost v: Volume, ghost ps: seq<Payload>, ghost img: seq<Cell>,
                   ghost sector0: nat, ghost total: nat, cnt: nat, sector: nat, want: nat,
                   buffer: array<byte>, at0: nat) returns (s: Status)
    requires Shown(d, v, ps, img) && at0 + total * v.l.bps <= buffer.Length && cnt + want <= total && 0 < want
    requires InRegion(r, copy, v.l, sector, want) && sector + want <= v.l.sectors
    requires v.l.mbrSectors + sector == sector0 + cnt
    requires Begins(d, v, sector0) && GoesOn(v.l, sector0, cnt)
    requires Filled(buffer, at0, v.l, img, sector0, cnt) && Expected(d, v, sector0, sector0 + cnt).Complete?
    modifies buffer
    ensures s == Expected(d, v, sector0, sector0 + cnt + want)
    ensures s.Complete? ==> Filled(buffer, at0, v.l, img, sector0, cnt + want)
    ensures forall b :: 0 <= b < buffer.Length && !(at0 <= b < at0 + total * v.l.bps) ==> buffer[b] == old(buffer[b])
  {
    BlockStep(d, v, ps, sector0, total, cnt, want, at0);
    var at := at0 + cnt * d.k.l.bps;
    s := ReadRegion(r, copy, d, v, ps, img, sector, want, buffer, at);
    if s.Complete? {
      assert Filled(buffer, at0, v.l, img, sector0, cnt);
      FilledMore(buffer, at0, v.l, img, sector0, cnt, want);
    }
  }

  lemma BlockStep(d: Served, v: Volume, ps: seq<Payload>, sector0: nat, total: nat, cnt: nat, want: nat, at0: nat)
    requires Serves(d, v, ps) && Begins(d, v, sector0) && GoesOn(v.l, sector0, cnt) && cnt + want <= total
    requires Expected(d, v, sector0, sector0 + cnt).Complete?
    ensures Begins(d, v, sector0 + cnt)
    ensures at0 <= at0 + cnt * v.l.bps <= at0 + cnt * v.l.bps + want * v.l.bps <= at0 + total * v.l.bps
    ensures Expected(d, v, sector0, sector0 + cnt + want) == Expected(d, v, sector0 + cnt, sector0 + cnt + want)
  {
    FatBegins(d, v, ps, sector0, sector0 + cnt);
    Room(at0, cnt, want, total, v.l.bps);
    ExpectedJoin(d, v, ps, sector0, sector0 + cnt, sector0 + cnt + want);
  }

  /** In front of the root directory, and where a read goes on, no read starts inside it. */
  lemma FatBegins(d: Served, v: Volume, ps: seq<Payload>, a: nat, b: nat)
    requires Serves(d, v, ps) && Begins(d, v, a)
    requires b == a || b <= v.l.mbrSectors + v.l.rootStart || b == v.l.mbrSectors + v.l.dataStart
    ensures Begins(d, v, b)
  {
    DataStartBegins(d, v, ps);
    forall i | 0 <= i < |d.ranges| && b <= v.l.mbrSectors + v.l.rootStart
      ensures b <= v.l.mbrSectors + d.ranges[i].sectstart
    {
      assert Ready(DataRegion, d, v, ps);
      assert IndexedAt(d.ranges[i], d.k.exts, v.xs[i]);
      InDataArea(v.l, v.xs, i);
    }
  }

  /** The two tables. */
  method FatBlocks(d: Served, ghost v: Volume, ghost ps: seq<Payload>, ghost img: seq<Cell>,
                   sector0: nat, total: nat, cnt0: nat, buffer: array<byte>, at0: nat) returns (s: Status, cnt: nat)
    requires Shown(d, v, ps, img) && at0 + total * v.l.bps <= buffer.Length && cnt0 < total
    requires v.l.mbrSectors + v.l.fat1Start <= sector0 + cnt0
    requires Begins(d, v, sector0) && GoesOn(v.l, sector0, cnt0)
    requires Filled(buffer, at0, v.l, img, sector0, cnt0) && Expected(d, v, sector0, sector0 + cnt0).Complete?
    modifies buffer
    ensures cnt0 <= cnt <= total
    ensures s == Expected(d, v, sector0, sector0 + cnt)
    ensures s.Complete? ==> Filled(buffer, at0, v.l, img, sector0, cnt)
    ensures s.Complete? && cnt < total ==> v.l.mbrSectors + v.l.rootStart <= sector0 + cnt
    ensures cnt == cnt0 || sector0 + cnt <= v.l.mbrSectors + v.l.rootStart
    ensures forall b :: 0 <= b < buffer.Length && !(at0 <= b < at0 + total * v.l.bps) ==> buffer[b] == old(buffer[b])
  {
    var l := d.k.l;
    s, cnt := Block(FatRegion, l.fat1Start, d, v, ps, img, sector0, total, cnt0, buffer, at0);
    if s.Complete? && cnt < total {
      s, cnt := Block(FatRegion, l.fat2Start, d, v, ps, img, sector0, total, cnt, buffer, at0);
    }
  }

  /** The root directory of FAT16 and the data area. */
  method LastBlocks(d: Served, ghost v: Volume, ghost ps: seq<Payload>, ghost img: seq<Cell>,
                    sector0: nat, total: nat, cnt0: nat, buffer: array<byte>, at0: nat) returns (s: Status, cnt: nat)
    requires Shown(d, v, ps, img) && at0 + total * v.l.bps <= buffer.Length && cnt0 < total
    requires v.l.mbrSectors + v.l.rootStart <= sector0 + cnt0 <= TotalSectors(v.l)
    requires Begins(d, v, sector0) && GoesOn(v.l, sector0, cnt0)
    requires Filled(buffer, at0, v.l, img, sector0, cnt0) && Expected(d, v, sector0, sector0 + cnt0).Complete?
    modifies buffer
    ensures cnt0 <= cnt <= total
    ensures s == Expected(d, v, sector0, sector0 + cnt)
    ensures s.Complete? ==> Filled(buffer, at0, v.l, img, sector0, cnt)
    ensures sector0 + cnt <= TotalSectors(v.l)
    ensures s.Complete? && cnt < total ==> TotalSectors(v.l) <= sector0 + cnt
    ensures forall b :: 0 <= b < buffer.Length && !(at0 <= b < at0 + total * v.l.bps) ==> buffer[b] == old(buffer[b])
  {
    s, cnt := Complete, cnt0;
    if !d.k.l.fs.FAT32? {
      s, cnt := Block(RootRegion, 0, d, v, ps, img, sector0, total, cnt0, buffer, at0);
    }
    if s.Complete? && cnt < total {
      s, cnt := Block(DataRegion, 0, d, v, ps, img, sector0, total, cnt, buffer, at0);
    }
  }

  /** The blocks behind the reserved sectors. If they do not complete, no later sector of the request matters. */
  method RestBlocks(d: Served, ghost v: Volume, ghost ps: seq<Payload>, ghost img: seq<Cell>,
                    sector0: nat, total: nat, cnt0: nat, buffer: array<byte>, at0: nat) returns (s: Status, cnt: nat)
    requires Shown(d, v, ps, img) && at0 + total * v.l.bps <= buffer.Length && cnt0 < total
    requires v.l.mbrSectors + v.l.fat1Start <= sector0 + cnt0 <= TotalSectors(v.l)
    requires Begins(d, v, sector0) && GoesOn(v.l, sector0, cnt0)
    requires Filled(buffer, at0, v.l, img, sector0, cnt0) && Expected(d, v, sector0, sector0 + cnt0).Complete?
    modifies buffer
    ensures cnt0 <= cnt <= total
    ensures s == Expected(d, v, sector0, sector0 + cnt)
    ensures s.Complete? ==> Filled(buffer, at0, v.l, img, sector0, cnt)
    ensures sector0 + cnt <= TotalSectors(v.l)
    ensures s.Complete? && cnt < total ==> TotalSectors(v.l) <= sector0 + cnt
    ensures forall b :: 0 <= b < buffer.Length && !(at0 <= b < at0 + total * v.l.bps) ==> buffer[b] == old(buffer[b])
  {
    s, cnt := FatBlocks(d, v, ps, img, sector0, total, cnt0, buffer, at0);
    if s.Complete? && cnt < total {
      s, cnt := LastBlocks(d, v, ps, img, sector0, total, cnt, buffer, at0);
    }
  }

  /** The blocks for everything behind the master boot record. */
  method ReadBlocks(d: Served, ghost v: Volume, ghost ps: seq<Payload>, ghost img: seq<Cell>,
                    sector0: nat, total: nat, cnt0: nat, buffer: array<byte>, at0: nat) returns (s: Status, cnt: nat)
    requires Shown(d, v, ps, img) && at0 + total * v.l.bps <= buffer.Length && cnt0 < total
    requires v.l.mbrSectors <= sector0 + cnt0 <= TotalSectors(v.l)
    requires Begins(d, v, sector0) && GoesOn(v.l, sector0, cnt0)
    requires Filled(buffer, at0, v.l, img, sector0, cnt0) && Expected(d, v, sector0, sector0 + cnt0).Complete?
    modifies buffer
    ensures cnt0 <= cnt <= total
    ensures s == Expected(d, v, sector0, sector0 + cnt)
    ensures s.Complete? ==> Filled(buffer, at0, v.l, img, sector0, cnt)
    ensures sector0 + cnt <= TotalSectors(v.l)
    ensures s.Complete? && cnt < total ==> TotalSectors(v.l) <= sector0 + cnt
    ensures forall b :: 0 <= b < buffer.Length && !(at0 <= b < at0 + total * v.l.bps) ==> buffer[b] == old(buffer[b])
  {
    s, cnt := Block(ReservedRegion, 0, d, v, ps, img, sector0, total, cnt0, buffer, at0);
    if s.Complete? && cnt < total {
      s, cnt := RestBlocks(d, v, ps, img, sector0, total, cnt, buffer, at0);
    }
  }

  // ---------------------------------------------------------------- the public operations

  lemma MbrCells(v: Volume, img: seq<Cell>, o: nat)
    requires IsImage(v, img) && o < v.l.mbrSectors * v.l.bps
    ensures o < |img| && img[o] == if o < v.l.bps then RecordCell(v.mbr, o) else Is(0)
  {
    MulSplit(v.l.sectors, v.l.mbrSectors, v.l.bps);
    MulMono(0, v.l.sectors, v.l.bps);
    assert ImageByte(v, img, o);
  }

  method MbrSector(d: Served, ghost v: Volume, ghost ps: seq<Payload>, ghost img: seq<Cell>, buffer: array<byte>,
                   at0: nat)
    requires Shown(d, v, ps, img) && v.l.mbrSectors > 0 && at0 + v.l.bps <= buffer.Length
    modifies buffer
    ensures ShowsImage(buffer, at0, img, 0, v.l.bps)
    ensures forall b :: 0 <= b < buffer.Length && !(at0 <= b < at0 + v.l.bps) ==> buffer[b] == old(buffer[b])
  {
    assert Ready(ReservedRegion, d, v, ps);
    assert SectorSize(v.l.bps);
    WriteMbrRecord(d.k.l, d.serial, buffer, at0);
    RecordShown(buffer, at0, v.mbr);
    MulMono(1, v.l.mbrSectors, v.l.bps);
    MbrCells(v, img, v.l.bps - 1);
    forall b | at0 <= b < at0 + v.l.bps
      ensures Shows(img[b - at0], buffer[b])
    {
      MbrCells(v, img, b - at0);
    }
  }

  method MbrPadding(d: Served, ghost v: Volume, ghost img: seq<Cell>, sector: nat, want: nat, buffer: array<byte>,
                    at: nat)
    requires v.l == d.k.l && IsImage(v, img) && 0 < sector && sector + want <= v.l.mbrSectors
    requires at + want * v.l.bps <= buffer.Length
    modifies buffer
    ensures ShowsImage(buffer, at, img, sector * v.l.bps, want * v.l.bps)
    ensures forall b :: 0 <= b < buffer.Length && !(at <= b < at + want * v.l.bps) ==> buffer[b] == old(buffer[b])
  {
    ZeroFill(buffer, at, want * d.k.l.bps);
    SectorsEnd(sector, want, v.l.mbrSectors, v.l.bps);
    MulMono(1, sector, v.l.bps);
    ZerosAreImage(buffer, at, v, img, sector * v.l.bps, want * v.l.bps);
  }

  lemma ZerosAreImage(buffer: array<byte>, at: nat, v: Volume, img: seq<Cell>, base: nat, n: nat)
    requires IsImage(v, img) && v.l.bps <= base && base + n <= v.l.mbrSectors * v.l.bps && at + n <= buffer.Length
    requires forall b :: at <= b < at + n ==> buffer[b] == 0
    ensures ShowsImage(buffer, at, img, base, n)
  {
    SectorsEnd(v.l.mbrSectors, v.l.sectors, TotalSectors(v.l), v.l.bps);
    forall b | at <= b < at + n
      ensures Shows(img[base + (b - at)], buffer[b])
    {
      MbrCells(v, img, base + (b - at));
    }
  }

  /** The part of a request that lies in front of the partition. */
  method MbrBlock(d: Served, ghost v: Volume, ghost ps: seq<Payload>, ghost img: seq<Cell>,
                  sector0: nat, total: nat, buffer: array<byte>, at0: nat) returns (cnt: nat)
    requires Shown(d, v, ps, img) && at0 + total * v.l.bps <= buffer.Length && 0 < total
    requires sector0 * v.l.bps <= |img|
    modifies buffer
    ensures cnt <= total && Filled(buffer, at0, v.l, img, sector0, cnt)
    ensures cnt == total || v.l.mbrSectors <= sector0 + cnt
    ensures sector0 + cnt <= v.l.mbrSectors || cnt == 0
    ensures forall b :: 0 <= b < buffer.Length && !(at0 <= b < at0 + total * v.l.bps) ==> buffer[b] == old(buffer[b])
  {
    cnt := 0;
    if d.k.l.mbrSectors > 0 {
      if sector0 == 0 {
        cnt := MbrFirst(d, v, ps, img, total, buffer, at0);
        if total == 1 {
          return;
        }
      }
      cnt := MbrRest(d, v, img, sector0, total, cnt, buffer, at0);
    }
  }

  method MbrFirst(d: Served, ghost v: Volume, ghost ps: seq<Payload>, ghost img: seq<Cell>, ghost total: nat,
                  buffer: array<byte>, at0: nat) returns (cnt: nat)
    requires Shown(d, v, ps, img) && v.l.mbrSectors > 0 && at0 + total * v.l.bps <= buffer.Length && 0 < total
    modifies buffer
    ensures cnt == 1 && Filled(buffer, at0, v.l, img, 0, 1)
    ensures forall b :: 0 <= b < buffer.Length && !(at0 <= b < at0 + total * v.l.bps) ==> buffer[b] == old(buffer[b])
  {
    MulMono(1, total, v.l.bps);
    MbrSector(d, v, ps, img, buffer, at0);
    cnt := 1;
  }

  method MbrRest(d: Served, ghost v: Volume, ghost img: seq<Cell>, sector0: nat, total: nat, cnt0: nat,
                 buffer: array<byte>, at0: nat) returns (cnt: nat)
    requires v.l == d.k.l && IsImage(v, img) && at0 + total * v.l.bps <= buffer.Length && cnt0 < total
    requires 0 < sector0 + cnt0
    requires Filled(buffer, at0, v.l, img, sector0, cnt0)
    modifies buffer
    ensures cnt0 <= cnt <= total && Filled(buffer, at0, v.l, img, sector0, cnt)
    ensures cnt == total || v.l.mbrSectors <= sector0 + cnt
    ensures sector0 + cnt <= v.l.mbrSectors || cnt == cnt0
    ensures forall b :: 0 <= b < buffer.Length && !(at0 <= b < at0 + total * v.l.bps) ==> buffer[b] == old(buffer[b])
  {
    cnt := cnt0;
    var l := d.k.l;
    var sector := sector0 + cnt0;
    if sector < l.mbrSectors {
      var want := if sector + (total - cnt) >= l.mbrSectors then l.mbrSectors - sector else total - cnt;
      Room(at0, cnt, want, total, l.bps);
      var at := at0 + cnt * l.bps;
      MbrPadding(d, v, img, sector, want, buffer, at);
      assert Filled(buffer, at0, l, img, sector0, cnt);
      FilledMore(buffer, at0, l, img, sector0, cnt, want);
      cnt := cnt + want;
    }
  }

  /** How many sectors a request for `cnt` sectors from `sector` on yields. */
  function Yield(l: Layout, sector: nat, cnt: nat): nat
    requires sector <= TotalSectors(l)
  {
    Min(cnt, TotalSectors(l) - sector)
  }

  /** What a call returns: the number of sectors or bytes, -1 for an unreadable file, -2 where the code reads
      behind the range table and its behaviour is undefined. */
  function Returned(s: Status, n: nat): int {
    match s
    case Complete => n
    case Failed => -1
    case Overrun => -2
  }

  /** `vdf_read_sectors`: the requested sectors that exist, unless one of them needs an unreadable file or the
      range table does not suffice. */
  method ReadSectors(d: Served, ghost v: Volume, ghost ps: seq<Payload>, ghost img: seq<Cell>,
                     sector: nat, cnt: nat, buffer: array<byte>, at: nat) returns (r: int)
    requires Shown(d, v, ps, img) && sector <= TotalSectors(v.l) && at + cnt * v.l.bps <= buffer.Length
    requires cnt < 0x8000_0000 && (cnt > 0 ==> Begins(d, v, sector))
    modifies buffer
    ensures r == Returned(Expected(d, v, sector, sector + Yield(v.l, sector, cnt)), Yield(v.l, sector, cnt))
    ensures r >= 0 ==> ShowsImage(buffer, at, img, sector * v.l.bps, r * v.l.bps)
    ensures forall b :: 0 <= b < buffer.Length && !(at <= b < at + cnt * v.l.bps) ==> buffer[b] == old(buffer[b])
  {
    MulMono(sector, TotalSectors(v.l), v.l.bps);
    NothingExpected(d, v, sector);
    if cnt == 0 {
      return 0;
    }
    var got := MbrBlock(d, v, ps, img, sector, cnt, buffer, at);
    MbrExpected(d, v, ps, sector, sector + got);
    if got == cnt {
      return got;
    }
    r := ReadPartition(d, v, ps, img, sector, cnt, got, buffer, at);
  }

  /** What follows the master boot record. */
  method ReadPartition(d: Served, ghost v: Volume, ghost ps: seq<Payload>, ghost img: seq<Cell>,
                       sector: nat, cnt: nat, got: nat, buffer: array<byte>, at: nat) returns (r: int)
    requires Shown(d, v, ps, img) && at + cnt * v.l.bps <= buffer.Length && got < cnt
    requires v.l.mbrSectors <= sector + got <= TotalSectors(v.l) && (got == 0 || sector + got <= v.l.mbrSectors)
    requires Begins(d, v, sector)
    requires Filled(buffer, at, v.l, img, sector, got) && Expected(d, v, sector, sector + got).Complete?
    modifies buffer
    ensures r == Returned(Expected(d, v, sector, sector + Yield(v.l, sector, cnt)), Yield(v.l, sector, cnt))
    ensures r >= 0 ==> ShowsImage(buffer, at, img, sector * v.l.bps, r * v.l.bps)
    ensures forall b :: 0 <= b < buffer.Length && !(at <= b < at + cnt * v.l.bps) ==> buffer[b] == old(buffer[b])
  {
    var s, n := ReadBlocks(d, v, ps, img, sector, cnt, got, buffer, at);
    ExpectedJoin(d, v, ps, sector, sector + n, sector + Yield(v.l, sector, cnt));
    r := Returned(s, n);
  }

  /** The master boot record and the sectors behind it need neither the table nor a file. */
  lemma MbrExpected(d: Served, v: Volume, ps: seq<Payload>, from: nat, to: nat)
    requires Serves(d, v, ps) && from <= to && (to == from || to <= v.l.mbrSectors)
    ensures Expected(d, v, from, to).Complete?
  {
    if to > from {
      AskableReserved(d, v, from, to);
      NoFilesBefore(d, v, ps, from, to);
    }
  }
}
