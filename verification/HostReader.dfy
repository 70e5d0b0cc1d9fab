/** How a host reads a FAT16 or FAT32 volume back from its raw bytes, and what it finds on an image that
    shows a volume: the chains, contents and counts of sections "FAT Data Structure" and "FAT32 FSInfo
    Sector Structure and Backup Boot Sector" of the Microsoft FAT32 File System Specification. */
module HostReader {
  import opened Bytes
  import opened Volume

  // ---------------------------------------------------------------- decoding

  function ByteAt(raw: seq<byte>, o: int): byte {
    if 0 <= o < |raw| then raw[o] else 0
  }

  function WordAt(raw: seq<byte>, o: int): nat {
    FromLe16(ByteAt(raw, o), ByteAt(raw, o + 1)) as int
  }

  function DwordAt(raw: seq<byte>, o: int): nat {
    FromLe32(ByteAt(raw, o), ByteAt(raw, o + 1), ByteAt(raw, o + 2), ByteAt(raw, o + 3))
  }

  /** Entry `n` of the table that begins at byte `base`; the upper four bits of a FAT32 entry are reserved. */
  function LinkIn(raw: seq<byte>, fs: FileSys, base: nat, n: nat): nat {
    if fs.FAT32? then DwordAt(raw, base + EntryPos(fs, n)) % 0x1000_0000 else WordAt(raw, base + EntryPos(fs, n))
  }

  /** The byte of the device at which sector `s` of the partition begins. */
  function SectorOffset(l: Layout, s: nat): nat {
    (l.mbrSectors + s) * l.bps
  }

  function Link(raw: seq<byte>, l: Layout, n: nat): nat {
    LinkIn(raw, l.fs, SectorOffset(l, l.fat1Start), n)
  }

  /** Marks a bad cluster; everything above ends a chain. */
  function BadMark(fs: FileSys): nat {
    if fs.FAT32? then 0x0fff_fff7 else 0xfff7
  }

  predicate IsDataCluster(l: Layout, n: nat) {
    2 <= n < l.clusters + 2
  }

  /** The clusters a host visits from cluster `n` on. */
  function Walk(raw: seq<byte>, l: Layout, n: nat, fuel: nat): (path: seq<nat>)
    ensures |path| > 0 && path[0] == n
    decreases fuel
  {
    if fuel == 0 || !IsDataCluster(l, Link(raw, l, n)) then [n] else [n] + Walk(raw, l, Link(raw, l, n), fuel - 1)
  }

  /** The bytes of cluster `n`. */
  function ClusterOffset(l: Layout, n: nat): nat
    requires n >= 2
  {
    SectorOffset(l, l.dataStart + (n - 2) * l.spc)
  }

  function ClusterBytes(raw: seq<byte>, l: Layout, n: nat): seq<byte> {
    if n < 2 || ClusterOffset(l, n) + BytesPerCluster(l) > |raw| then []
    else raw[ClusterOffset(l, n)..ClusterOffset(l, n) + BytesPerCluster(l)]
  }

  function PathParts(raw: seq<byte>, l: Layout, path: seq<nat>): (parts: seq<seq<byte>>)
    ensures |parts| == |path|
  {
    seq(|path|, i requires 0 <= i < |path| => ClusterBytes(raw, l, path[i]))
  }

  /** The first `k` parts, one after the other. */
  function Joined(parts: seq<seq<byte>>, k: nat): seq<byte>
    requires k <= |parts|
  {
    if k == 0 then [] else Joined(parts, k - 1) + parts[k - 1]
  }

  /** Everything in the chain that starts at cluster `n`. */
  function ChainBytes(raw: seq<byte>, l: Layout, n: nat): seq<byte> {
    var parts := PathParts(raw, l, Walk(raw, l, n, l.clusters));
    Joined(parts, |parts|)
  }

  // ---------------------------------------------------------------- what the raw bytes show

  ghost predicate DumpByte(v: Volume, raw: seq<byte>, o: int)
    requires Regions(v.l) && !v.l.fs.FAT12? && 0 <= o < |raw|
  {
    Shows(ImageCell(v, o), raw[o])
  }

  /** `raw` is the device as a host has read it. */
  ghost predicate Dump(v: Volume, raw: seq<byte>) {
    && Regions(v.l) && !v.l.fs.FAT12?
    && |raw| == ImageBytes(v.l)
    && forall o {:trigger DumpByte(v, raw, o)} :: 0 <= o < |raw| ==> DumpByte(v, raw, o)
  }

  /** A volume whose extents fit its layout and whose table has an entry for every cluster in use. */
  ghost predicate Sound(v: Volume) {
    && LayoutOk(v.l) && !v.l.fs.FAT12? && Tiled(v.l, v.xs) && TableOk(v)
    && ClusterEnd(v.xs) <= v.l.clusters + 2
    && EntryPos(v.l.fs, ClusterEnd(v.xs)) <= v.l.fatSectors * v.l.bps
  }

  lemma OffsetSplit(l: Layout, s: nat, j: nat)
    requires s <= l.sectors && j <= (l.sectors - s) * l.bps
    ensures SectorOffset(l, s) == l.mbrSectors * l.bps + s * l.bps
    ensures SectorOffset(l, s) + j <= ImageBytes(l)
  {
    MulSplit(l.mbrSectors, s, l.bps);
    MulSplit(l.mbrSectors + s, l.sectors - s, l.bps);
  }

  /** Byte `j` behind the start of sector `s` of the partition. */
  lemma PartShown(v: Volume, raw: seq<byte>, s: nat, j: nat)
    requires Dump(v, raw) && s <= v.l.sectors && j < (v.l.sectors - s) * v.l.bps
    ensures SectorOffset(v.l, s) + j < |raw|
    ensures Shows(PartCell(v, s * v.l.bps + j), raw[SectorOffset(v.l, s) + j])
  {
    OffsetSplit(v.l, s, j + 1);
    assert DumpByte(v, raw, SectorOffset(v.l, s) + j);
  }

  // ---------------------------------------------------------------- the table

  /** Both copies of the table hold the bytes of the abstract table. */
  lemma TableShown(v: Volume, raw: seq<byte>, copy: nat, j: nat)
    requires Dump(v, raw) && TableOk(v) && (copy == v.l.fat1Start || copy == v.l.fat2Start)
    requires j < v.l.fatSectors * v.l.bps
    ensures SectorOffset(v.l, copy) + j < |raw|
    ensures raw[SectorOffset(v.l, copy) + j] == FatByte(v.l.fs, v.xs, j)
  {
    var l := v.l;
    MulMono(l.fatSectors, l.sectors - copy, l.bps);
    PartShown(v, raw, copy, j);
    PartInFat(v, copy, copy * l.bps, j);
    assert TableByte(v, j);
  }

  /** The second table is a copy of the first. */
  lemma TablesAgree(v: Volume, raw: seq<byte>, j: nat)
    requires Dump(v, raw) && TableOk(v) && j < v.l.fatSectors * v.l.bps
    ensures SectorOffset(v.l, v.l.fat2Start) + j < |raw|
    ensures SectorOffset(v.l, v.l.fat1Start) + j < |raw|
    ensures raw[SectorOffset(v.l, v.l.fat1Start) + j] == raw[SectorOffset(v.l, v.l.fat2Start) + j]
  {
    TableShown(v, raw, v.l.fat1Start, j);
    TableShown(v, raw, v.l.fat2Start, j);
  }

  lemma EntryByteShown(v: Volume, raw: seq<byte>, copy: nat, n: nat, t: nat)
    requires Dump(v, raw) && TableOk(v) && (copy == v.l.fat1Start || copy == v.l.fat2Start)
    requires EntryPos(v.l.fs, n + 1) <= v.l.fatSectors * v.l.bps && t < EntryWidth(v.l.fs)
    ensures ByteAt(raw, SectorOffset(v.l, copy) + EntryPos(v.l.fs, n) + t) == LeByte(FatEntry(v.l.fs, v.xs, n), t)
  {
    var j := EntryPos(v.l.fs, n) + t;
    assert j < EntryPos(v.l.fs, n + 1);
    TableShown(v, raw, copy, j);
    EntryIndex(v.l.fs, n, t);
    assert FatByte(v.l.fs, v.xs, j) == LeByte(FatEntry(v.l.fs, v.xs, n), t);
  }

  lemma FatEntryRange(v: Volume, n: nat)
    requires !v.l.fs.FAT12? && ClusterEnd(v.xs) <= MaxClusters(v.l.fs) + 2
    ensures FatEntry(v.l.fs, v.xs, n) < if v.l.fs.FAT32? then 0x1000_0000 else 0x1_0000
  {
  }

  /** The bytes from `pos` on are the little-endian encoding of `e`. */
  ghost predicate Holds(raw: seq<byte>, pos: nat, w: nat, e: nat) {
    forall t {:trigger LeByte(e, t)} :: 0 <= t < w ==> ByteAt(raw, pos + t) == LeByte(e, t)
  }

  lemma WordDecoded(raw: seq<byte>, pos: nat, e: nat)
    requires e < 0x1_0000 && Holds(raw, pos, 2, e)
    ensures WordAt(raw, pos) == e
  {
    Le16RoundTrip(e as u16);
    assert ByteAt(raw, pos + 0) == LeByte(e, 0);
    assert ByteAt(raw, pos + 1) == LeByte(e, 1);
  }

  lemma DwordDecoded(raw: seq<byte>, pos: nat, e: nat)
    requires e < TWO32 && Holds(raw, pos, 4, e)
    ensures DwordAt(raw, pos) == e
  {
    Le32RoundTrip(e);
    assert ByteAt(raw, pos + 0) == LeByte(e, 0);
    assert ByteAt(raw, pos + 1) == LeByte(e, 1);
    assert ByteAt(raw, pos + 2) == LeByte(e, 2);
    assert ByteAt(raw, pos + 3) == LeByte(e, 3);
  }

  lemma EntryHeld(v: Volume, raw: seq<byte>, copy: nat, n: nat)
    requires Dump(v, raw) && TableOk(v) && (copy == v.l.fat1Start || copy == v.l.fat2Start)
    requires EntryPos(v.l.fs, n + 1) <= v.l.fatSectors * v.l.bps
    ensures Holds(raw, SectorOffset(v.l, copy) + EntryPos(v.l.fs, n), EntryWidth(v.l.fs), FatEntry(v.l.fs, v.xs, n))
  {
    forall t {:trigger LeByte(FatEntry(v.l.fs, v.xs, n), t)} | 0 <= t < EntryWidth(v.l.fs)
      ensures ByteAt(raw, SectorOffset(v.l, copy) + EntryPos(v.l.fs, n) + t) == LeByte(FatEntry(v.l.fs, v.xs, n), t)
    {
      EntryByteShown(v, raw, copy, n, t);
    }
  }

  lemma LinkHeld(raw: seq<byte>, fs: FileSys, base: nat, n: nat, e: nat)
    requires !fs.FAT12? && Holds(raw, base + EntryPos(fs, n), EntryWidth(fs), e)
    requires e < if fs.FAT32? then 0x1000_0000 else 0x1_0000
    ensures LinkIn(raw, fs, base, n) == e
  {
    if fs.FAT32? {
      DwordDecoded(raw, base + EntryPos(fs, n), e);
    } else {
      WordDecoded(raw, base + EntryPos(fs, n), e);
    }
  }

  /** What a host decodes from either copy is the abstract table. */
  lemma LinkDecoded(v: Volume, raw: seq<byte>, copy: nat, n: nat)
    requires Dump(v, raw) && TableOk(v) && (copy == v.l.fat1Start || copy == v.l.fat2Start)
    requires ClusterEnd(v.xs) <= MaxClusters(v.l.fs) + 2
    requires EntryPos(v.l.fs, n + 1) <= v.l.fatSectors * v.l.bps
    ensures LinkIn(raw, v.l.fs, SectorOffset(v.l, copy), n) == FatEntry(v.l.fs, v.xs, n)
  {
    FatEntryRange(v, n);
    EntryHeld(v, raw, copy, n);
    LinkHeld(raw, v.l.fs, SectorOffset(v.l, copy), n, FatEntry(v.l.fs, v.xs, n));
  }

  // ---------------------------------------------------------------- chains

  function Run(a: nat, b: nat): (r: seq<nat>)
    requires a <= b
    ensures |r| == b - a
  {
    seq(b - a, i requires 0 <= i => a + i)
  }

  lemma RunCons(a: nat, b: nat)
    requires a < b
    ensures Run(a, b) == [a] + Run(a + 1, b)
  {
  }

  lemma RunOne(a: nat)
    ensures Run(a, a + 1) == [a]
  {
  }

  /** Inside an extent a link leads to the next cluster, and is neither a free, a bad nor an end mark;
      the last cluster carries an end mark. */
  lemma LinkInside(v: Volume, raw: seq<byte>, i: nat, n: nat)
    requires Dump(v, raw) && Sound(v) && i < |v.xs| && v.xs[i].start <= n < v.xs[i].end
    ensures IsDataCluster(v.l, n)
    ensures n + 1 < v.xs[i].end ==> Link(raw, v.l, n) == n + 1 < BadMark(v.l.fs) && IsDataCluster(v.l, n + 1)
    ensures n + 1 == v.xs[i].end ==> Link(raw, v.l, n) > BadMark(v.l.fs) && !IsDataCluster(v.l, Link(raw, v.l, n))
  {
    assert ExtentOk(v.l, v.xs[i]);
    FatEntryInside(v.l, v.xs, i, n);
    LastEnd(v.l, v.xs, i);
    assert EntryPos(v.l.fs, n + 1) <= EntryPos(v.l.fs, ClusterEnd(v.xs));
    LinkDecoded(v, raw, v.l.fat1Start, n);
  }

  lemma LastEnd(l: Layout, xs: seq<Extent>, i: nat)
    requires Tiled(l, xs) && i < |xs|
    ensures xs[i].end <= ClusterEnd(xs)
  {
    if i < |xs| - 1 {
      TiledOrder(l, xs, i, |xs| - 1);
      assert ExtentOk(l, xs[|xs| - 1]);
    }
  }

  /** From any cluster of an extent a host visits exactly the rest of the extent. */
  lemma {:induction false} WalkInside(v: Volume, raw: seq<byte>, i: nat, n: nat, fuel: nat)
    requires Dump(v, raw) && Sound(v) && i < |v.xs| && v.xs[i].start <= n < v.xs[i].end && v.xs[i].end - n <= fuel
    ensures Walk(raw, v.l, n, fuel) == Run(n, v.xs[i].end)
    decreases fuel
  {
    LinkInside(v, raw, i, n);
    if n + 1 < v.xs[i].end {
      WalkInside(v, raw, i, n + 1, fuel - 1);
      RunCons(n, v.xs[i].end);
    } else {
      RunOne(n);
    }
  }

  ghost predicate ChainStep(raw: seq<byte>, l: Layout, path: seq<nat>, i: nat)
    requires i < |path|
  {
    && IsDataCluster(l, path[i])
    && if i + 1 < |path| then Link(raw, l, path[i]) == path[i + 1] else Link(raw, l, path[i]) > BadMark(l.fs)
  }

  /** A complete chain: every cluster links to the next and the last one carries an end mark. */
  ghost predicate IsChain(raw: seq<byte>, l: Layout, path: seq<nat>) {
    |path| > 0 && forall i {:trigger ChainStep(raw, l, path, i)} :: 0 <= i < |path| ==> ChainStep(raw, l, path, i)
  }

  lemma RunIsChain(v: Volume, raw: seq<byte>, i: nat)
    requires Dump(v, raw) && Sound(v) && i < |v.xs| && v.xs[i].start < v.xs[i].end
    ensures IsChain(raw, v.l, Run(v.xs[i].start, v.xs[i].end))
  {
    var x := v.xs[i];
    var path := Run(x.start, x.end);
    forall j {:trigger ChainStep(raw, v.l, path, j)} | 0 <= j < |path|
      ensures ChainStep(raw, v.l, path, j)
    {
      LinkInside(v, raw, i, x.start + j);
    }
  }

  lemma {:induction false} ChainFollowsRun(v: Volume, raw: seq<byte>, i: nat, path: seq<nat>, j: nat)
    requires Dump(v, raw) && Sound(v) && i < |v.xs|
    requires IsChain(raw, v.l, path) && path[0] == v.xs[i].start < v.xs[i].end && j < |path|
    ensures path[j] == v.xs[i].start + j < v.xs[i].end
  {
    if j > 0 {
      ChainFollowsRun(v, raw, i, path, j - 1);
      LinkInside(v, raw, i, path[j - 1]);
      assert ChainStep(raw, v.l, path, j - 1);
      assert ChainStep(raw, v.l, path, j);
    }
  }

  /** The one and only chain from the first cluster of an extent is start, start + 1, ..., end - 1. */
  lemma ChainIsExtent(v: Volume, raw: seq<byte>, i: nat, path: seq<nat>)
    requires Dump(v, raw) && Sound(v) && i < |v.xs|
    ensures v.xs[i].start < v.xs[i].end
    ensures |path| > 0 && path[0] == v.xs[i].start && IsChain(raw, v.l, path) <==>
            path == Run(v.xs[i].start, v.xs[i].end)
  {
    var x := v.xs[i];
    assert ExtentOk(v.l, x);
    if path == Run(x.start, x.end) {
      RunIsChain(v, raw, i);
    }
    if |path| > 0 && path[0] == x.start && IsChain(raw, v.l, path) {
      forall j | 0 <= j < |path|
        ensures path[j] == x.start + j < x.end
      {
        ChainFollowsRun(v, raw, i, path, j);
      }
      var last := |path| - 1;
      assert ChainStep(raw, v.l, path, last);
      LinkInside(v, raw, i, path[last]);
    }
  }

  // ---------------------------------------------------------------- contents

  lemma NextCluster(l: Layout, n: nat)
    requires n >= 2
    ensures ClusterOffset(l, n + 1) == ClusterOffset(l, n) + BytesPerCluster(l)
  {
    var s := l.dataStart + (n - 2) * l.spc;
    MulSplit(n - 2, 1, l.spc);
    MulSplit(l.mbrSectors + s, l.spc, l.bps);
  }

  lemma {:induction false} ClusterRun(l: Layout, n: nat, k: nat)
    requires n >= 2
    ensures ClusterOffset(l, n + k) == ClusterOffset(l, n) + k * BytesPerCluster(l)
  {
    if k > 0 {
      ClusterRun(l, n, k - 1);
      NextCluster(l, n + k - 1);
      MulSplit(k - 1, 1, BytesPerCluster(l));
    }
  }

  lemma RunInside(raw: seq<byte>, l: Layout, a: nat, b: nat, k: nat)
    requires 2 <= a <= b && k <= b - a && ClusterOffset(l, b) <= |raw|
    ensures ClusterOffset(l, a + k) == ClusterOffset(l, a) + k * BytesPerCluster(l) <= |raw|
    ensures k * BytesPerCluster(l) >= 0
  {
    ClusterRun(l, a, k);
    ClusterRun(l, a + k, b - a - k);
    MulMono(0, b - a - k, BytesPerCluster(l));
    MulMono(0, k, BytesPerCluster(l));
  }

  lemma SlicesJoin(raw: seq<byte>, a: nat, b: nat, c: nat)
    requires a <= b <= c <= |raw|
    ensures raw[a..b] + raw[b..c] == raw[a..c]
  {
  }

  ghost predicate SliceAt(raw: seq<byte>, parts: seq<seq<byte>>, offs: seq<int>, i: nat)
    requires |offs| == |parts| + 1 && i < |parts|
  {
    0 <= offs[i] <= offs[i + 1] <= |raw| && parts[i] == raw[offs[i]..offs[i + 1]]
  }

  lemma {:induction false} JoinedSlices(raw: seq<byte>, parts: seq<seq<byte>>, offs: seq<int>, k: nat)
    requires |offs| == |parts| + 1 && k <= |parts| && 0 <= offs[0] <= |raw|
    requires forall i {:trigger SliceAt(raw, parts, offs, i)} :: 0 <= i < |parts| ==> SliceAt(raw, parts, offs, i)
    ensures offs[0] <= offs[k] <= |raw| && Joined(parts, k) == raw[offs[0]..offs[k]]
  {
    if k > 0 {
      JoinedSlices(raw, parts, offs, k - 1);
      assert SliceAt(raw, parts, offs, k - 1);
      SlicesJoin(raw, offs[0], offs[k - 1], offs[k]);
    }
  }

  lemma OneCluster(raw: seq<byte>, l: Layout, n: nat, top: nat)
    requires 2 <= n < top && ClusterOffset(l, top) <= |raw|
    ensures ClusterOffset(l, n) <= ClusterOffset(l, n + 1) <= |raw|
    ensures ClusterBytes(raw, l, n) == raw[ClusterOffset(l, n)..ClusterOffset(l, n + 1)]
  {
    NextCluster(l, n);
    MulMono(0, l.spc, l.bps);
    RunInside(raw, l, n, top, 1);
  }

  ghost function Offsets(l: Layout, a: nat, n: nat): (r: seq<int>)
    requires a >= 2
    ensures |r| == n + 1 && forall i :: 0 <= i <= n ==> r[i] == ClusterOffset(l, a + i)
  {
    seq(n + 1, i requires 0 <= i => ClusterOffset(l, a + i))
  }

  lemma SliceOfRun(raw: seq<byte>, l: Layout, a: nat, b: nat, i: nat)
    requires 2 <= a && a + i < b && ClusterOffset(l, b) <= |raw|
    ensures SliceAt(raw, PathParts(raw, l, Run(a, b)), Offsets(l, a, b - a), i)
  {
    OneCluster(raw, l, a + i, b);
  }

  /** Consecutive clusters are consecutive bytes. */
  lemma RunBytes(raw: seq<byte>, l: Layout, a: nat, b: nat)
    requires 2 <= a < b && ClusterOffset(l, b) <= |raw|
    ensures ClusterOffset(l, a) <= ClusterOffset(l, b)
    ensures Joined(PathParts(raw, l, Run(a, b)), b - a) == raw[ClusterOffset(l, a)..ClusterOffset(l, b)]
  {
    var parts := PathParts(raw, l, Run(a, b));
    var offs := Offsets(l, a, b - a);
    forall i {:trigger SliceAt(raw, parts, offs, i)} | 0 <= i < |parts|
      ensures SliceAt(raw, parts, offs, i)
    {
      SliceOfRun(raw, l, a, b, i);
    }
    OneCluster(raw, l, a, b);
    JoinedSlices(raw, parts, offs, b - a);
  }

  // ---------------------------------------------------------------- what an extent's chain holds

  lemma ExtentBounds(v: Volume, i: nat)
    requires LayoutOk(v.l) && Tiled(v.l, v.xs) && ClusterEnd(v.xs) <= v.l.clusters + 2 && i < |v.xs|
    ensures v.l.dataStart <= v.xs[i].startsect <= v.xs[i].endsect <= v.l.sectors
    ensures ClusterOffset(v.l, v.xs[i].start) == SectorOffset(v.l, v.xs[i].startsect)
    ensures ClusterOffset(v.l, v.xs[i].end) == SectorOffset(v.l, v.xs[i].endsect)
  {
    var x := v.xs[i];
    assert ExtentOk(v.l, x);
    LastEnd(v.l, v.xs, i);
    MulMono(0, x.start - 2, v.l.spc);
    MulMono(x.start - 2, x.end - 2, v.l.spc);
    MulMono(x.end - 2, v.l.clusters, v.l.spc);
  }

  /** The bytes of an extent show its payload. */
  lemma ExtentShown(v: Volume, raw: seq<byte>, i: nat, j: nat)
    requires Dump(v, raw) && Sound(v) && i < |v.xs| && v.xs[i].startsect <= v.xs[i].endsect
    requires j < (v.xs[i].endsect - v.xs[i].startsect) * v.l.bps
    ensures SectorOffset(v.l, v.xs[i].startsect) + j < |raw|
    ensures Shows(PayloadCell(v.xs[i].payload, j), raw[SectorOffset(v.l, v.xs[i].startsect) + j])
  {
    var l, s := v.l, v.xs[i].startsect;
    ExtentBounds(v, i);
    MulMono(v.xs[i].endsect - s, l.sectors - s, l.bps);
    PartShown(v, raw, s, j);
    ExtentInPart(v, i, s * l.bps, j);
  }

  lemma ExtentInPart(v: Volume, i: nat, lo: nat, j: nat)
    requires Regions(v.l) && !v.l.fs.FAT12? && Tiled(v.l, v.xs) && v.l.spc > 0 && i < |v.xs|
    requires v.l.dataStart <= v.xs[i].startsect && lo == v.xs[i].startsect * v.l.bps
    requires j < (v.xs[i].endsect - v.xs[i].startsect) * v.l.bps
    ensures PartCell(v, lo + j) == PayloadCell(v.xs[i].payload, j)
  {
    var l, s := v.l, v.xs[i].startsect;
    DataAreaInside(l, v.xs, i, j);
    MulSplit(l.dataStart, s - l.dataStart, l.bps);
    PartInData(v, l.dataStart * l.bps, Times(s - l.dataStart, l.bps) + j);
  }

  /** Bytes that show a payload from its beginning. */
  ghost predicate ShownBy(p: Payload, bytes: seq<byte>) {
    forall j :: 0 <= j < |bytes| ==> Shows(PayloadCell(p, j), bytes[j])
  }

  lemma ExtentOffsets(l: Layout, s: nat, e: nat)
    requires s <= e <= l.sectors
    ensures 0 <= (e - s) * l.bps
    ensures SectorOffset(l, e) == SectorOffset(l, s) + (e - s) * l.bps && SectorOffset(l, e) <= ImageBytes(l)
  {
    MulMono(0, e - s, l.bps);
    MulSplit(l.mbrSectors + s, e - s, l.bps);
    MulMono(0, l.sectors - e, l.bps);
    OffsetSplit(l, e, 0);
  }

  /** The chain from the first cluster of an extent is the bytes between its offsets. */
  lemma ChainBytesAre(v: Volume, raw: seq<byte>, i: nat, from: nat, to: nat)
    requires Dump(v, raw) && Sound(v) && i < |v.xs| && v.xs[i].start < v.xs[i].end
    requires from == SectorOffset(v.l, v.xs[i].startsect) && to == SectorOffset(v.l, v.xs[i].endsect) <= |raw|
    ensures from <= to && ChainBytes(raw, v.l, v.xs[i].start) == raw[from..to]
  {
    ExtentBounds(v, i);
    LastEnd(v.l, v.xs, i);
    assert ExtentOk(v.l, v.xs[i]);
    WalkInside(v, raw, i, v.xs[i].start, v.l.clusters);
    RunBytes(raw, v.l, v.xs[i].start, v.xs[i].end);
  }

  /** The chain from the first cluster of an extent holds the payload of that extent, padded to whole clusters. */
  lemma ChainShown(v: Volume, raw: seq<byte>, i: nat)
    requires Dump(v, raw) && Sound(v) && i < |v.xs| && v.xs[i].start < v.xs[i].end
    ensures v.xs[i].startsect <= v.xs[i].endsect
    ensures |ChainBytes(raw, v.l, v.xs[i].start)| == (v.xs[i].endsect - v.xs[i].startsect) * v.l.bps
    ensures ShownBy(v.xs[i].payload, ChainBytes(raw, v.l, v.xs[i].start))
  {
    var s, e := v.xs[i].startsect, v.xs[i].endsect;
    ExtentBounds(v, i);
    ExtentOffsets(v.l, s, e);
    ChainBytesAre(v, raw, i, SectorOffset(v.l, s), SectorOffset(v.l, e));
    ChainIsSlice(v, raw, i, ChainBytes(raw, v.l, v.xs[i].start));
  }

  lemma ChainIsSlice(v: Volume, raw: seq<byte>, i: nat, bytes: seq<byte>)
    requires Dump(v, raw) && Sound(v) && i < |v.xs| && v.xs[i].startsect <= v.xs[i].endsect
    requires SectorOffset(v.l, v.xs[i].startsect) <= SectorOffset(v.l, v.xs[i].endsect) <= |raw|
    requires |bytes| == (v.xs[i].endsect - v.xs[i].startsect) * v.l.bps
    requires bytes == raw[SectorOffset(v.l, v.xs[i].startsect)..SectorOffset(v.l, v.xs[i].endsect)]
    ensures ShownBy(v.xs[i].payload, bytes)
  {
    forall j | 0 <= j < |bytes|
      ensures Shows(PayloadCell(v.xs[i].payload, j), bytes[j])
    {
      ExtentShown(v, raw, i, j);
    }
  }

  /** `content` cut or padded with zeros to `size` bytes. */
  function Exactly(content: seq<byte>, size: nat): (r: seq<byte>)
    ensures |r| == size
  {
    seq(size, j requires 0 <= j => if j < |content| then content[j] else 0)
  }

  lemma FileShown(bytes: seq<byte>, content: seq<byte>, size: nat)
    requires ShownBy(FileData(size, content), bytes) && size <= |bytes|
    ensures bytes[..size] == Exactly(content, size)
  {
    forall j | 0 <= j < size
      ensures bytes[j] == Exactly(content, size)[j]
    {
      assert Shows(PayloadCell(FileData(size, content), j), bytes[j]);
    }
  }

  // ---------------------------------------------------------------- the FSInfo sector

  /** The number of free entries among clusters 2, ..., n - 1. */
  function FreeEntries(raw: seq<byte>, l: Layout, n: nat): nat {
    if n <= 2 then 0 else FreeEntries(raw, l, n - 1) + if Link(raw, l, n - 1) == 0 then 1 else 0
  }

  function FreeCountShown(raw: seq<byte>, l: Layout): nat {
    DwordAt(raw, SectorOffset(l, 1) + 488)
  }

  function NextFreeShown(raw: seq<byte>, l: Layout): nat {
    DwordAt(raw, SectorOffset(l, 1) + 492)
  }

  /** An entry is free exactly from the end of the last file on. */
  lemma LinkFree(v: Volume, raw: seq<byte>, n: nat)
    requires Dump(v, raw) && Sound(v) && n >= 2 && EntryPos(v.l.fs, n + 1) <= v.l.fatSectors * v.l.bps
    ensures (Link(raw, v.l, n) == 0) == (n >= ClusterEnd(v.xs))
  {
    LinkDecoded(v, raw, v.l.fat1Start, n);
  }

  lemma {:induction false} CountFree(v: Volume, raw: seq<byte>, n: nat)
    requires Dump(v, raw) && Sound(v) && EntryPos(v.l.fs, n) <= v.l.fatSectors * v.l.bps && n >= 2
    requires ClusterEnd(v.xs) >= 2
    ensures FreeEntries(raw, v.l, n) == if n <= ClusterEnd(v.xs) then 0 else n - ClusterEnd(v.xs)
  {
    if n > 2 {
      CountFree(v, raw, n - 1);
      LinkFree(v, raw, n - 1);
    }
  }

  lemma InfoByteShown(v: Volume, raw: seq<byte>, r: nat)
    requires Dump(v, raw) && v.l.fs.FAT32? && v.l.fat1Start > 1 && r < 512
    ensures ByteAt(raw, SectorOffset(v.l, 1) + r) == FsInfoByte(FreeClusters(v), ClusterEnd(v.xs), r)
  {
    var l := v.l;
    assert SectorSize(l.bps);
    MulMono(1, l.sectors - 1, l.bps);
    PartShown(v, raw, 1, r);
    MulMono(2, l.fat1Start, l.bps);
    assert (l.bps + r) / l.bps == 1 && (l.bps + r) % l.bps == r;
  }

  lemma FreeFieldShown(v: Volume, raw: seq<byte>, free: u32)
    requires Dump(v, raw) && v.l.fs.FAT32? && v.l.fat1Start > 1 && free == FreeClusters(v)
    ensures FreeCountShown(raw, v.l) == free
  {
    forall t {:trigger LeByte(free, t)} | 0 <= t < 4
      ensures ByteAt(raw, SectorOffset(v.l, 1) + 488 + t) == LeByte(free, t)
    {
      InfoByteShown(v, raw, 488 + t);
    }
    DwordDecoded(raw, SectorOffset(v.l, 1) + 488, free);
  }

  lemma NextFieldShown(v: Volume, raw: seq<byte>, next: nat)
    requires Dump(v, raw) && v.l.fs.FAT32? && v.l.fat1Start > 1 && next == ClusterEnd(v.xs) < TWO32
    ensures NextFreeShown(raw, v.l) == next
  {
    forall t {:trigger LeByte(next, t)} | 0 <= t < 4
      ensures ByteAt(raw, SectorOffset(v.l, 1) + 492 + t) == LeByte(next, t)
    {
      InfoByteShown(v, raw, 492 + t);
    }
    DwordDecoded(raw, SectorOffset(v.l, 1) + 492, next);
  }

  lemma InfoDecoded(v: Volume, raw: seq<byte>)
    requires Dump(v, raw) && v.l.fs.FAT32? && v.l.fat1Start > 1 && 2 <= ClusterEnd(v.xs) <= v.l.clusters + 2 < TWO32
    ensures FreeCountShown(raw, v.l) == v.l.clusters + 2 - ClusterEnd(v.xs)
    ensures NextFreeShown(raw, v.l) == ClusterEnd(v.xs)
  {
    Wrap32Id(v.l.clusters - (ClusterEnd(v.xs) - 2));
    FreeFieldShown(v, raw, FreeClusters(v));
    NextFieldShown(v, raw, ClusterEnd(v.xs));
  }

  /** Conservation: the free count a host reads plus the clusters in use is the cluster count, it is the
      number of free entries in the table, and the hint names the first of them. */
  lemma FreeCountConserved(v: Volume, raw: seq<byte>)
    requires Dump(v, raw) && Sound(v) && v.l.fs.FAT32? && v.l.fat1Start > 1
    requires EntryPos(v.l.fs, v.l.clusters + 2) <= v.l.fatSectors * v.l.bps
    ensures FreeCountShown(raw, v.l) + (ClusterEnd(v.xs) - 2) == v.l.clusters
    ensures FreeCountShown(raw, v.l) == FreeEntries(raw, v.l, v.l.clusters + 2)
    ensures FreeCountShown(raw, v.l) > 0 ==>
            IsDataCluster(v.l, NextFreeShown(raw, v.l)) && Link(raw, v.l, NextFreeShown(raw, v.l)) == 0
    ensures forall n {:trigger Link(raw, v.l, n)} :: 2 <= n < NextFreeShown(raw, v.l) ==> Link(raw, v.l, n) != 0
  {
    ClusterEndAtLeastTwo(v.l, v.xs);
    InfoDecoded(v, raw);
    CountFree(v, raw, v.l.clusters + 2);
    FirstFree(v, raw, ClusterEnd(v.xs));
  }

  lemma FirstFree(v: Volume, raw: seq<byte>, end: nat)
    requires Dump(v, raw) && Sound(v) && v.l.fs.FAT32? && end == ClusterEnd(v.xs) >= 2
    requires EntryPos(v.l.fs, v.l.clusters + 2) <= v.l.fatSectors * v.l.bps
    ensures end < v.l.clusters + 2 ==> Link(raw, v.l, end) == 0
    ensures forall n {:trigger Link(raw, v.l, n)} :: 2 <= n < end ==> Link(raw, v.l, n) != 0
  {
    if end < v.l.clusters + 2 {
      LinkFree(v, raw, end);
    }
    forall n {:trigger Link(raw, v.l, n)} | 2 <= n < end
      ensures Link(raw, v.l, n) != 0
    {
      LinkFree(v, raw, n);
    }
  }
}
