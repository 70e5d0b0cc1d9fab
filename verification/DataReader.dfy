/** Writing sectors of the data area (libvdf/read_data.c). */
module DataReader {
  import opened Bytes
  import opened Volume
  import opened FileTree
  import opened Directory
  import opened DirReader
  import opened FatReader

  /** `find_file_sector`: the owner of a sector of the data area, without looking beyond the table. */
  method FindFileSector(l: Layout, ranges: seq<Range>, fileCnt: nat, dataEnd: nat, sector: nat,
                        exts: seq<Ext>, ghost xs: seq<Extent>) returns (ri: int)
    requires IndexOk(l, ranges, exts, xs) && |ranges| <= fileCnt && dataEnd == SectorEnd(l, xs) && sector >= l.dataStart
    ensures -1 <= ri < |xs|
    ensures (ri == -1) == (sector >= dataEnd)
    ensures ri >= 0 ==> xs[ri].startsect <= sector < xs[ri].endsect
  {
    if sector >= dataEnd {
      return -1;
    }
    var i := 0;
    while i < fileCnt
      invariant 0 <= i <= fileCnt && i < |ranges|
      invariant forall j :: 0 <= j < i ==> xs[j].endsect <= sector
    {
      assert IndexedAt(ranges[i], exts, xs[i]);
      if sector < ranges[i].sectend {
        SectorStartsBefore(l, xs, i, sector);
        return i;
      }
      i := i + 1;
    }
    assert false;
  }

  lemma SectorStartsBefore(l: Layout, xs: seq<Extent>, i: nat, sector: nat)
    requires Tiled(l, xs) && i < |xs| && sector >= l.dataStart
    requires forall j :: 0 <= j < i ==> xs[j].endsect <= sector
    ensures xs[i].startsect <= sector
  {
    if i > 0 {
      assert Chained(xs, i - 1);
      assert xs[i - 1].endsect <= sector;
    } else {
      assert ExtentOk(l, xs[0]);
    }
  }

  // ---------------------------------------------------------------- one file

  /** Bytes of the buffer show bytes base, base + 1, ... of a payload. */
  ghost predicate ShowsPayload(buffer: array<byte>, at: nat, p: Payload, base: nat, n: nat)
    reads buffer
    requires at + n <= buffer.Length
  {
    forall b :: at <= b < at + n ==> Shows(PayloadCell(p, base + (b - at)), buffer[b])
  }

  /** What a callback or `read` delivers: at most `want` bytes from offset `off` on. */
  method Deliver(content: seq<byte>, off: nat, want: nat, buffer: array<byte>, at: nat) returns (cnt: nat)
    requires at + want <= buffer.Length
    modifies buffer
    ensures cnt == Min(want, if off < |content| then |content| - off else 0)
    ensures forall b :: at <= b < at + cnt ==> buffer[b] == content[off + (b - at)]
    ensures forall b :: 0 <= b < buffer.Length && !(at <= b < at + cnt) ==> buffer[b] == old(buffer[b])
  {
    cnt := 0;
    while cnt < want && off + cnt < |content|
      invariant 0 <= cnt <= want && (cnt == 0 || off + cnt <= |content|)
      invariant forall b :: at <= b < at + cnt ==> buffer[b] == content[off + (b - at)]
      invariant forall b :: 0 <= b < buffer.Length && !(at <= b < at + cnt) ==> buffer[b] == old(buffer[b])
    {
      buffer[at + cnt] := content[off + cnt];
      cnt := cnt + 1;
    }
  }

  /** The part of a file that lies in `n` bytes from offset `off` on; bytes behind its end are zero. */
  method ReadFilePart(size: nat, content: seq<byte>, off: nat, want: nat, n: nat, buffer: array<byte>, at: nat)
    requires at + n <= buffer.Length && want <= n && off < size && want <= size - off
    requires want == n || want == size - off
    modifies buffer
    ensures ShowsPayload(buffer, at, FileData(size, content), off, n)
    ensures forall b :: 0 <= b < buffer.Length && !(at <= b < at + n) ==> buffer[b] == old(buffer[b])
  {
    var cnt := Deliver(content, off, want, buffer, at);
    ZeroFill(buffer, at + cnt, n - cnt);
  }

  method ZeroPart(ghost size: nat, ghost content: seq<byte>, ghost off: nat, n: nat, buffer: array<byte>, at: nat)
    requires at + n <= buffer.Length && off >= size
    modifies buffer
    ensures ShowsPayload(buffer, at, FileData(size, content), off, n)
    ensures forall b :: 0 <= b < buffer.Length && !(at <= b < at + n) ==> buffer[b] == old(buffer[b])
  {
    ZeroFill(buffer, at, n);
  }

  // ---------------------------------------------------------------- the data area

  /** Sector `s` needs bytes of a file that cannot be read. */
  ghost predicate BadSector(k: Disk, f: int, startsect: nat, s: nat)
    requires DiskShape(k) && 0 <= f < |k.sizes|
  {
    !k.t.links[f].isDir && !k.t.attrs[f].readable && s >= startsect && (s - startsect) * k.l.bps < k.sizes[f].bytes
  }

  ghost predicate ReadyDirs(k: Disk, fents: seq<Fent>) {
    && DiskShape(k)
    && |fents| == |k.sizes|
    && (forall d {:trigger DirNumbered(k, fents, d)} ::
          0 <= d < |k.sizes| && k.t.links[d].isDir ==> DirNumbered(k, fents, d))
    && (forall d {:trigger k.t.links[d]} :: 0 <= d < |k.sizes| && d != ROOT ==> k.t.links[d].parent != NONE)
  }

  ghost predicate PayloadAt(k: Disk, ps: seq<Payload>, f: int)
    requires DiskShape(k) && 0 <= f < |k.sizes| == |ps|
  {
    ps[f] == PayloadOf(k, f)
  }

  /** `ps` holds the payload of every file. */
  ghost predicate Payloads(k: Disk, ps: seq<Payload>) {
    && DiskShape(k) && |ps| == |k.sizes|
    && forall f {:trigger PayloadAt(k, ps, f)} :: 0 <= f < |ps| ==> PayloadAt(k, ps, f)
  }

  /** Extent `x` shows file `f` and has room for all of it. */
  ghost predicate Carries(k: Disk, ps: seq<Payload>, f: int, x: Extent) {
    && 0 <= f < |k.sizes| == |ps|
    && x.payload == ps[f]
    && x.startsect <= x.endsect && k.sizes[f].bytes <= (x.endsect - x.startsect) * k.l.bps
  }

  /** `swant` sectors of file `f` from `sector` on; `scnt` is how many sectors the caller still wants. */
  method ReadPiece(k: Disk, ghost ps: seq<Payload>, fents: seq<Fent>, f: int, ghost x: Extent, startsect: nat,
                   sector: nat, scnt: nat, swant: nat,
                   buffer: array<byte>, at: nat) returns (ok: bool)
    requires Payloads(k, ps) && Carries(k, ps, f, x) && ReadyDirs(k, fents) && x.startsect == startsect <= sector
    requires 0 < swant <= scnt && sector + swant <= x.endsect && (swant == scnt || sector + swant == x.endsect)
    requires k.t.links[f].isDir ==> Steady(k, fents, f, sector - startsect)
    requires at + swant * k.l.bps <= buffer.Length
    modifies buffer
    ensures ok == !BadSector(k, f, startsect, sector)
    ensures ok ==> ShowsPayload(buffer, at, x.payload, Times(sector - startsect, k.l.bps), Times(swant, k.l.bps))
    ensures forall b :: 0 <= b < buffer.Length && !(at <= b < at + swant * k.l.bps) ==> buffer[b] == old(buffer[b])
  {
    ok := true;
    if k.t.links[f].isDir {
      ReadDirSectors(k, ps, fents, f, sector - startsect, swant, buffer, at);
    } else {
      ok := ReadFileSectors(k, ps, f, startsect, sector, scnt, swant, x.endsect, buffer, at);
    }
  }

  method ReadDirSectors(k: Disk, ghost ps: seq<Payload>, fents: seq<Fent>, d: int, sector: nat, scnt: nat,
                        buffer: array<byte>, at: nat)
    requires Payloads(k, ps) && ReadyDirs(k, fents) && 0 <= d < |ps| && k.t.links[d].isDir
    requires Steady(k, fents, d, sector)
    requires 0 < scnt && at + scnt * k.l.bps <= buffer.Length
    modifies buffer
    ensures ShowsPayload(buffer, at, ps[d], sector * k.l.bps, scnt * k.l.bps)
    ensures forall b :: 0 <= b < buffer.Length && !(at <= b < at + scnt * k.l.bps) ==> buffer[b] == old(buffer[b])
  {
    assert DirNumbered(k, fents, d);
    assert PayloadAt(k, ps, d);
    ReadDirSlice(k, fents, d, sector, scnt, buffer, at);
  }

  method ReadFileSectors(k: Disk, ghost ps: seq<Payload>, f: int, startsect: nat, sector: nat, scnt: nat, swant: nat,
                         ghost endsect: nat,
                         buffer: array<byte>, at: nat) returns (ok: bool)
    requires Payloads(k, ps) && 0 <= f < |ps| && !k.t.links[f].isDir
    requires startsect <= sector && 0 < swant <= scnt && sector + swant <= endsect
    requires swant == scnt || sector + swant == endsect
    requires k.sizes[f].bytes <= (endsect - startsect) * k.l.bps
    requires at + swant * k.l.bps <= buffer.Length
    modifies buffer
    ensures ok == !BadSector(k, f, startsect, sector)
    ensures ok ==> ShowsPayload(buffer, at, ps[f], Times(sector - startsect, k.l.bps), Times(swant, k.l.bps))
    ensures forall b :: 0 <= b < buffer.Length && !(at <= b < at + swant * k.l.bps) ==> buffer[b] == old(buffer[b])
  {
    ok := true;
    assert PayloadAt(k, ps, f);
    var size, content := k.sizes[f].bytes, k.t.attrs[f].content;
    var off, n := (sector - startsect) * k.l.bps, swant * k.l.bps;
    if off >= size {
      ZeroPart(size, content, off, n, buffer, at);
    } else {
      var want := size - off;
      if want > scnt * k.l.bps {
        want := scnt * k.l.bps;
      }
      WantFits(k.l.bps, startsect, sector, scnt, swant, endsect, size);
      if !k.t.attrs[f].readable {
        return false;
      }
      ReadFilePart(size, content, off, want, n, buffer, at);
    }
  }

  /** The byte count is clamped by the caller's request, but it never exceeds the sectors of this file. */
  lemma WantFits(bps: nat, startsect: nat, sector: nat, scnt: nat, swant: nat, endsect: nat, size: nat)
    requires startsect <= sector && swant <= scnt && sector + swant <= endsect
    requires swant == scnt || sector + swant == endsect
    requires (sector - startsect) * bps < size <= (endsect - startsect) * bps
    ensures
      var left := size - (sector - startsect) * bps;
      var want := if left > scnt * bps then scnt * bps else left;
      want <= swant * bps && (want == swant * bps || want == left)
  {
    MulMono(swant, scnt, bps);
    MulSplit(sector - startsect, endsect - sector, bps);
  }

  /** Bytes of the buffer show bytes base, base + 1, ... of the data area. */
  ghost predicate ShowsData(buffer: array<byte>, at: nat, bps: nat, xs: seq<Extent>, base: nat, n: nat)
    reads buffer
    requires at + n <= buffer.Length
  {
    forall b :: at <= b < at + n ==> Shows(CellAt(DataArea(bps, xs), base + (b - at)), buffer[b])
  }

  /** A payload shown from inside its extent is the data area shown. */
  lemma PayloadIsData(buffer: array<byte>, at: nat, l: Layout, xs: seq<Extent>, i: nat, sector: nat, n: nat)
    requires Tiled(l, xs) && l.spc > 0 && i < |xs| && xs[i].startsect <= sector && sector + n <= xs[i].endsect
    requires at + Times(n, l.bps) <= buffer.Length
    requires ShowsPayload(buffer, at, xs[i].payload, Times(sector - xs[i].startsect, l.bps), Times(n, l.bps))
    ensures l.dataStart <= sector
    ensures ShowsData(buffer, at, l.bps, xs, Times(sector - l.dataStart, l.bps), Times(n, l.bps))
  {
    var start := xs[i].startsect;
    assert ExtentOk(l, xs[i]);
    MulMono(0, xs[i].start - 2, l.spc);
    MulSplit(start - l.dataStart, sector - start, l.bps);
    MulSplit(sector - start, n, l.bps);
    MulMono(sector - start + n, xs[i].endsect - start, l.bps);
    forall b | at <= b < at + n * l.bps
      ensures Shows(CellAt(DataArea(l.bps, xs), (sector - l.dataStart) * l.bps + (b - at)), buffer[b])
    {
      var j := (sector - start) * l.bps + (b - at);
      DataAreaInside(l, xs, i, j);
    }
  }

  /** `n` more sectors shown behind those already shown. */
  lemma ShowsMoreData(buffer: array<byte>, at: nat, bps: nat, xs: seq<Extent>, base: nat, n: nat, m: nat)
    requires at + n + m <= buffer.Length
    requires ShowsData(buffer, at, bps, xs, base, n) && ShowsData(buffer, at + n, bps, xs, base + n, m)
    ensures ShowsData(buffer, at, bps, xs, base, n + m)
  {
    forall b | at <= b < at + n + m
      ensures Shows(CellAt(DataArea(bps, xs), base + (b - at)), buffer[b])
    {
      if b >= at + n {
        assert base + (b - at) == base + n + (b - (at + n));
      }
    }
  }

  ghost predicate CarriedAt(k: Disk, ps: seq<Payload>, ranges: seq<Range>, xs: seq<Extent>, i: int)
    requires 0 <= i < |xs| == |ranges|
  {
    Carries(k, ps, ranges[i].file, xs[i])
  }

  /** Everything that reading the data area relies on. */
  ghost predicate DataOk(k: Disk, ps: seq<Payload>, fents: seq<Fent>, ranges: seq<Range>, xs: seq<Extent>) {
    && IndexOk(k.l, ranges, k.exts, xs) && Payloads(k, ps) && ReadyDirs(k, fents) && k.l.spc > 0
    && forall i {:trigger CarriedAt(k, ps, ranges, xs, i)} :: 0 <= i < |xs| ==> CarriedAt(k, ps, ranges, xs, i)
  }

  /** Sector `s` belongs to extent `i` and needs bytes that cannot be read. */
  ghost predicate BadIn(k: Disk, ranges: seq<Range>, xs: seq<Extent>, i: int, s: nat) {
    && 0 <= i < |xs| == |ranges| && DiskShape(k) && 0 <= ranges[i].file < |k.sizes|
    && xs[i].startsect <= s < xs[i].endsect
    && BadSector(k, ranges[i].file, xs[i].startsect, s)
  }

  ghost predicate Unreadable(k: Disk, ranges: seq<Range>, xs: seq<Extent>, s: nat) {
    exists i :: BadIn(k, ranges, xs, i, s)
  }

  lemma OwnerUnique(l: Layout, xs: seq<Extent>, i: int, j: int, s: nat)
    requires Tiled(l, xs) && l.spc > 0 && 0 <= i < |xs| && 0 <= j < |xs|
    requires xs[i].startsect <= s < xs[i].endsect && xs[j].startsect <= s < xs[j].endsect
    ensures i == j
  {
    if i < j {
      TiledOrder(l, xs, i, j);
    } else if j < i {
      TiledOrder(l, xs, j, i);
    }
  }

  /** If the first sector of a piece can be read, so can the others of the same extent. */
  lemma PieceReadable(k: Disk, ranges: seq<Range>, xs: seq<Extent>, i: int, sector: nat, s: nat)
    requires Tiled(k.l, xs) && k.l.spc > 0 && |ranges| == |xs| && DiskShape(k)
    requires 0 <= i < |xs| && 0 <= ranges[i].file < |k.sizes|
    requires xs[i].startsect <= sector <= s < xs[i].endsect
    requires !BadSector(k, ranges[i].file, xs[i].startsect, sector)
    ensures !Unreadable(k, ranges, xs, s)
  {
    MulMono(sector - xs[i].startsect, s - xs[i].startsect, k.l.bps);
    if Unreadable(k, ranges, xs, s) {
      var j :| BadIn(k, ranges, xs, j, s);
      OwnerUnique(k.l, xs, i, j, s);
    }
  }

  lemma BeyondReadable(k: Disk, ranges: seq<Range>, xs: seq<Extent>, s: nat)
    requires Tiled(k.l, xs) && k.l.spc > 0 && s >= SectorEnd(k.l, xs)
    ensures !Unreadable(k, ranges, xs, s)
  {
    if Unreadable(k, ranges, xs, s) {
      var j :| BadIn(k, ranges, xs, j, s);
      if j < |xs| - 1 {
        TiledOrder(k.l, xs, j, |xs| - 1);
        assert ExtentOk(k.l, xs[|xs| - 1]);
        TiledSectors(k.l, xs[|xs| - 1]);
      }
    }
  }

  /** A read that starts at `sector` does not start inside a labelled root directory behind its first sector,
      unless that directory fits into it. */
  ghost predicate StartsWell(k: Disk, fents: seq<Fent>, ranges: seq<Range>, sector: nat) {
    && DiskShape(k) && |fents| == |k.sizes| > 0
    && (LabelSafe(k, fents, ROOT) ||
        forall i :: 0 <= i < |ranges| && ranges[i].file == ROOT ==> !(ranges[i].sectstart < sector < ranges[i].sectend))
  }

  lemma FileSteady(k: Disk, fents: seq<Fent>, ranges: seq<Range>, i: nat, sector: nat)
    requires ReadyDirs(k, fents) && i < |ranges| && ranges[i].sectstart <= sector < ranges[i].sectend
    requires 0 <= ranges[i].file < |k.sizes| && k.t.links[ranges[i].file].isDir
    requires StartsWell(k, fents, ranges, sector)
    ensures Steady(k, fents, ranges[i].file, sector - ranges[i].sectstart)
  {
    var f := ranges[i].file;
    assert DirNumbered(k, fents, f);
    if f != ROOT {
      OthersSteady(k, fents, f);
    }
  }

  /** Behind the end of an extent a read does not start inside another one. */
  lemma EndStartsWell(k: Disk, fents: seq<Fent>, ranges: seq<Range>, xs: seq<Extent>, ri: nat)
    requires IndexOk(k.l, ranges, k.exts, xs) && DiskShape(k) && |fents| == |k.sizes| > 0 && ri < |xs|
    ensures StartsWell(k, fents, ranges, xs[ri].endsect)
  {
    forall i | 0 <= i < |ranges|
      ensures !(ranges[i].sectstart < xs[ri].endsect < ranges[i].sectend)
    {
      assert IndexedAt(ranges[i], k.exts, xs[i]);
      if i < ri {
        TiledOrder(k.l, xs, i, ri);
        assert ExtentOk(k.l, xs[ri]);
        MulMono(xs[ri].start - 2, xs[ri].end - 2, k.l.spc);
      } else if ri < i {
        TiledOrder(k.l, xs, ri, i);
      }
    }
  }

  /** One round of the loop of `read_sector_data`: as much as one file, or the zeros behind all files, supplies. */
  method DataStep(k: Disk, ghost ps: seq<Payload>, fents: seq<Fent>, ranges: seq<Range>, fileCnt: nat, dataEnd: nat,
                  ghost xs: seq<Extent>, sector: nat, scnt: nat, buffer: array<byte>, at: nat)
    returns (ok: bool, swant: nat)
    requires DataOk(k, ps, fents, ranges, xs) && |ranges| <= fileCnt && dataEnd == SectorEnd(k.l, xs)
    requires k.l.dataStart <= sector && 0 < scnt && at + scnt * k.l.bps <= buffer.Length
    requires StartsWell(k, fents, ranges, sector)
    modifies buffer
    ensures 0 < swant <= scnt && at + swant * k.l.bps <= buffer.Length
    ensures swant == scnt || StartsWell(k, fents, ranges, sector + swant)
    ensures ok ==> ShowsData(buffer, at, k.l.bps, xs, Times(sector - k.l.dataStart, k.l.bps), swant * k.l.bps)
    ensures ok ==> forall s {:trigger Unreadable(k, ranges, xs, s)} ::
                     sector <= s < sector + swant ==> !Unreadable(k, ranges, xs, s)
    ensures !ok ==> Unreadable(k, ranges, xs, sector)
    ensures forall b :: 0 <= b < buffer.Length && !(at <= b < at + scnt * k.l.bps) ==> buffer[b] == old(buffer[b])
    ensures forall b :: 0 <= b < at ==> buffer[b] == old(buffer[b])
  {
    var ri := FindFileSector(k.l, ranges, fileCnt, dataEnd, sector, k.exts, xs);
    if ri == -1 {
      swant, ok := scnt, true;
      ZeroTail(k.l.bps, k.l, xs, sector, scnt, buffer, at);
      forall s {:trigger Unreadable(k, ranges, xs, s)} | sector <= s < sector + swant
        ensures !Unreadable(k, ranges, xs, s)
      {
        BeyondReadable(k, ranges, xs, s);
      }
    } else {
      ok, swant := FileStep(k, ps, fents, ranges, xs, ri, sector, scnt, buffer, at);
    }
  }

  method ZeroTail(bps: nat, ghost l: Layout, ghost xs: seq<Extent>, ghost sector: nat, scnt: nat, buffer: array<byte>,
                  at: nat)
    requires Tiled(l, xs) && l.spc > 0 && bps == l.bps && l.dataStart <= sector && sector >= SectorEnd(l, xs)
    requires at + scnt * bps <= buffer.Length
    modifies buffer
    ensures ShowsData(buffer, at, l.bps, xs, Times(sector - l.dataStart, l.bps), scnt * l.bps)
    ensures forall b :: 0 <= b < buffer.Length && !(at <= b < at + scnt * bps) ==> buffer[b] == old(buffer[b])
  {
    DataAreaSize(l, xs);
    MulMono(SectorEnd(l, xs) - l.dataStart, sector - l.dataStart, l.bps);
    ZeroFill(buffer, at, scnt * bps);
  }

  method FileStep(k: Disk, ghost ps: seq<Payload>, fents: seq<Fent>, ranges: seq<Range>, ghost xs: seq<Extent>, ri: nat,
                  sector: nat, scnt: nat, buffer: array<byte>, at: nat)
    returns (ok: bool, swant: nat)
    requires DataOk(k, ps, fents, ranges, xs) && ri < |xs| && xs[ri].startsect <= sector < xs[ri].endsect
    requires 0 < scnt && at + scnt * k.l.bps <= buffer.Length
    requires StartsWell(k, fents, ranges, sector)
    modifies buffer
    ensures 0 < swant <= scnt && at + swant * k.l.bps <= at + scnt * k.l.bps
    ensures swant == scnt || StartsWell(k, fents, ranges, sector + swant)
    ensures k.l.dataStart <= sector
    ensures ok ==> ShowsData(buffer, at, k.l.bps, xs, Times(sector - k.l.dataStart, k.l.bps), swant * k.l.bps)
    ensures ok ==> forall s {:trigger Unreadable(k, ranges, xs, s)} ::
                     sector <= s < sector + swant ==> !Unreadable(k, ranges, xs, s)
    ensures !ok ==> Unreadable(k, ranges, xs, sector)
    ensures forall b :: 0 <= b < buffer.Length && !(at <= b < at + scnt * k.l.bps) ==> buffer[b] == old(buffer[b])
  {
    var f := ranges[ri].file;
    assert IndexedAt(ranges[ri], k.exts, xs[ri]);
    assert CarriedAt(k, ps, ranges, xs, ri);
    swant := k.exts[f].endsect - sector;
    if swant > scnt {
      swant := scnt;
    }
    MulMono(swant, scnt, k.l.bps);
    InDataArea(k.l, xs, ri);
    EndStartsWell(k, fents, ranges, xs, ri);
    if k.t.links[f].isDir {
      FileSteady(k, fents, ranges, ri, sector);
    }
    ok := ReadPiece(k, ps, fents, f, xs[ri], k.exts[f].startsect, sector, scnt, swant, buffer, at);
    if ok {
      PayloadIsData(buffer, at, k.l, xs, ri, sector, swant);
      forall s {:trigger Unreadable(k, ranges, xs, s)} | sector <= s < sector + swant
        ensures !Unreadable(k, ranges, xs, s)
      {
        PieceReadable(k, ranges, xs, ri, sector, s);
      }
    } else {
      assert BadIn(k, ranges, xs, ri, sector);
    }
  }

  lemma InDataArea(l: Layout, xs: seq<Extent>, i: nat)
    requires Tiled(l, xs) && i < |xs|
    ensures l.dataStart <= xs[i].startsect
  {
    assert ExtentOk(l, xs[i]);
    MulMono(0, xs[i].start - 2, l.spc);
  }

  /** `read_sector_data`: any run of sectors of the data area, unless one of them needs an unreadable file. */
  method ReadSectorData(k: Disk, ghost ps: seq<Payload>, fents: seq<Fent>, ranges: seq<Range>, fileCnt: nat,
                        dataEnd: nat,
                        ghost xs: seq<Extent>, sector0: nat, scnt0: nat, buffer: array<byte>, at0: nat)
    returns (ok: bool)
    requires DataOk(k, ps, fents, ranges, xs) && |ranges| <= fileCnt && dataEnd == SectorEnd(k.l, xs)
    requires k.l.dataStart <= sector0 && at0 + scnt0 * k.l.bps <= buffer.Length
    requires scnt0 == 0 || StartsWell(k, fents, ranges, sector0)
    modifies buffer
    ensures ok == forall s {:trigger Unreadable(k, ranges, xs, s)} ::
                    sector0 <= s < sector0 + scnt0 ==> !Unreadable(k, ranges, xs, s)
    ensures ok ==> ShowsData(buffer, at0, k.l.bps, xs, Times(sector0 - k.l.dataStart, k.l.bps), scnt0 * k.l.bps)
    ensures forall b :: 0 <= b < buffer.Length && !(at0 <= b < at0 + scnt0 * k.l.bps) ==> buffer[b] == old(buffer[b])
  {
    ok := true;
    var bps := k.l.bps;
    var sector: nat, scnt: nat, at: nat := sector0, scnt0, at0;
    ghost var start: nat, done: nat := sector0 - k.l.dataStart, 0;
    while scnt > 0
      invariant sector == sector0 + done && scnt == scnt0 - done && 0 <= done <= scnt0
      invariant scnt == 0 || StartsWell(k, fents, ranges, sector)
      invariant at == at0 + done * bps && at + scnt * bps == at0 + scnt0 * bps
      invariant ShowsData(buffer, at0, bps, xs, Times(start, bps), Times(done, bps))
      invariant forall s {:trigger Unreadable(k, ranges, xs, s)} ::
                  sector0 <= s < sector ==> !Unreadable(k, ranges, xs, s)
      invariant forall b :: 0 <= b < buffer.Length && !(at0 <= b < at0 + scnt0 * bps) ==> buffer[b] == old(buffer[b])
    {
      var swant;
      ok, swant := DataStep(k, ps, fents, ranges, fileCnt, dataEnd, xs, sector, scnt, buffer, at);
      if !ok {
        return;
      }
      AdvanceArith(done, swant, scnt, bps);
      MoreSectors(buffer, at0, bps, xs, start, done, swant);
      sector, scnt, at := sector + swant, scnt - swant, at + swant * bps;
      done := done + swant;
    }
  }

  lemma MoreSectors(buffer: array<byte>, at0: nat, bps: nat, xs: seq<Extent>, start: nat, done: nat, swant: nat)
    requires at0 + Times(done, bps) + Times(swant, bps) <= buffer.Length
    requires ShowsData(buffer, at0, bps, xs, Times(start, bps), Times(done, bps))
    requires ShowsData(buffer, at0 + Times(done, bps), bps, xs, Times(start + done, bps), Times(swant, bps))
    ensures at0 + Times(done + swant, bps) <= buffer.Length
    ensures ShowsData(buffer, at0, bps, xs, Times(start, bps), Times(done + swant, bps))
  {
    MulSplit(start, done, bps);
    MulSplit(done, swant, bps);
    ShowsMoreData(buffer, at0, bps, xs, Times(start, bps), Times(done, bps), Times(swant, bps));
  }

  lemma AdvanceArith(done: nat, swant: nat, scnt: nat, bps: nat)
    requires swant <= scnt
    ensures (done + swant) * bps == done * bps + swant * bps
    ensures (scnt - swant) * bps + swant * bps == scnt * bps
    ensures 0 <= (scnt - swant) * bps
  {
    MulSplit(done, swant, bps);
    MulSplit(scnt - swant, swant, bps);
    MulMono(0, scnt - swant, bps);
  }
}
