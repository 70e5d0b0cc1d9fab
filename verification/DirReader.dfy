/** Writing directory sectors (libvdf/read_dir.c). The drive is only read here, so it is passed as the
    value of its tables. */
module DirReader {
  import opened Bytes
  import opened Volume
  import opened Names
  import opened LongNames
  import opened FileTree
  import opened Directory

  /** Bytes [at, at + 32n) of the buffer show slots first, first + 1, ... of a directory. */
  ghost predicate ShowsSlots(buffer: array<byte>, at: nat, slots: seq<Block>, first: nat, n: nat)
    reads buffer
    requires at + 32 * n <= buffer.Length
  {
    forall i :: at <= i < at + 32 * n ==> Shows(DirCell(slots, 32 * first + (i - at)), buffer[i])
  }

  /** Stores one slot, leaving unwritten bytes alone. */
  method StoreSlot(buffer: array<byte>, at: nat, s: Slot)
    requires at + 32 <= buffer.Length
    modifies buffer
    ensures forall i :: at <= i < at + 32 ==> Shows(SlotCell(s, i - at), buffer[i])
    ensures forall i :: 0 <= i < buffer.Length && !(at <= i < at + 32) ==> buffer[i] == old(buffer[i])
  {
    var r := 0;
    while r < 32
      invariant 0 <= r <= 32
      invariant forall i :: at <= i < at + r ==> Shows(SlotCell(s, i - at), buffer[i])
      invariant forall i :: 0 <= i < buffer.Length && !(at <= i < at + r) ==> buffer[i] == old(buffer[i])
    {
      var c := SlotCell(s, r);
      if c.Is? {
        buffer[at + r] := c.value;
      }
      r := r + 1;
    }
  }

  /** Stores the next slot behind `cnt` slots already shown. */
  method StoreNext(buffer: array<byte>, at: nat, s: Slot, ghost slots: seq<Block>, ghost first: nat, cnt: nat)
    requires at + 32 * (cnt + 1) <= buffer.Length
    requires ShowsSlots(buffer, at, slots, first, cnt)
    requires first + cnt < |slots| && slots[first + cnt] == Encoded(s)
    modifies buffer
    ensures ShowsSlots(buffer, at, slots, first, cnt + 1)
    ensures forall i :: 0 <= i < buffer.Length && !(at <= i < at + 32 * (cnt + 1)) ==> buffer[i] == old(buffer[i])
  {
    ghost var pos := at + 32 * cnt;
    StoreSlot(buffer, at + 32 * cnt, s);
    forall i | at <= i < at + 32 * (cnt + 1)
      ensures Shows(DirCell(slots, 32 * first + (i - at)), buffer[i])
    {
      if i >= pos {
        SlotIndex(first + cnt, i - pos);
        assert Shows(SlotCell(s, i - pos), buffer[i]);
      } else {
        assert buffer[i] == old(buffer[i]);
      }
    }
  }

  lemma SlotIndex(q: nat, r: nat)
    requires r < 32
    ensures (32 * q + r) / 32 == q && (32 * q + r) % 32 == r
  {
  }

  /** How many slots of an entry lie before slot number `entnum`. */
  function Skipped(fent: Fent, entnum: int): nat {
    if entnum > fent.start then entnum - fent.start else 0
  }

  /** The long-name part of `fill_dirent`. */
  method FillLong(k: Disk, fent: Fent, buffer: array<byte>, at: nat, f: int, entnum: int,
                  maxcnt: nat) returns (cnt: nat)
    requires DiskShape(k) && 0 <= f < |k.sizes| && k.t.vfat && k.t.attrs[f].longName && NulFree(k.t.attrs[f].name)
    requires fent.extra == LongCount(k.t.attrs[f].name) && Skipped(fent, entnum) <= fent.extra
    requires 0 < maxcnt && at + 32 * maxcnt <= buffer.Length
    modifies buffer
    ensures cnt == Min(maxcnt, fent.extra - Skipped(fent, entnum))
    ensures ShowsSlots(buffer, at, EntryBlocks(k, f), Skipped(fent, entnum), cnt)
    ensures forall i :: 0 <= i < buffer.Length && !(at <= i < at + 32 * cnt) ==> buffer[i] == old(buffer[i])
  {
    var a := k.t.attrs[f];
    var chk := ScanChecksum(a.shortname);
    ghost var slots, skip := EntryBlocks(k, f), Skipped(fent, entnum);
    var rel := entnum - fent.start;
    var e, part := 0, fent.extra;
    cnt := 0;
    while part > 0
      invariant 0 <= part <= fent.extra && e == fent.extra - part
      invariant cnt == (if e > skip then e - skip else 0) && cnt < maxcnt
      invariant ShowsSlots(buffer, at, slots, skip, cnt)
      invariant forall i :: 0 <= i < buffer.Length && !(at <= i < at + 32 * cnt) ==> buffer[i] == old(buffer[i])
    {
      if e >= rel {
        var units := CollectPart(a.name, part - 1);
        var s := LongSlot(SequenceByte(part, fent.extra), chk, units);
        assert slots[skip + cnt] == Encoded(s) by {
          assert skip + cnt == e;
          assert LongBlocks(a.name, chk)[e] == Encoded(LongSlotFor(a.name, chk, part));
        }
        StoreNext(buffer, at, s, slots, skip, cnt);
        cnt := cnt + 1;
        if cnt == maxcnt {
          return;
        }
      }
      part, e := part - 1, e + 1;
    }
  }

  /** `fill_dirent` for an ordinary entry: from slot number `entnum` on, at most `maxcnt` slots. */
  method FillDirent(k: Disk, ghost bs: seq<seq<Block>>, fent: Fent, buffer: array<byte>, at: nat, f: int, entnum: int,
                    maxcnt: nat)
    returns (cnt: nat)
    requires DiskShape(k) && 0 <= f < |k.sizes| && NulFree(k.t.attrs[f].name) && Renders(k, bs)
    requires fent.extra + 1 == SlotsOf(k.t, f) && Skipped(fent, entnum) <= fent.extra
    requires 0 < maxcnt && at + 32 * maxcnt <= buffer.Length
    modifies buffer
    ensures cnt == Min(maxcnt, SlotsOf(k.t, f) - Skipped(fent, entnum))
    ensures ShowsSlots(buffer, at, bs[f], Skipped(fent, entnum), cnt)
    ensures forall i :: 0 <= i < buffer.Length && !(at <= i < at + 32 * cnt) ==> buffer[i] == old(buffer[i])
  {
    assert RendersAt(k, bs, f);
    cnt := 0;
    if k.t.vfat && k.t.attrs[f].longName {
      cnt := FillLong(k, fent, buffer, at, f, entnum, maxcnt);
      if cnt == maxcnt {
        return;
      }
    }
    var field := ScanNameField(k.t.attrs[f].shortname);
    EntrySlotCount(k, f);
    StoreNext(buffer, at, ShortSlotOf(k, f, field), EntryBlocks(k, f), Skipped(fent, entnum), cnt);
    cnt := cnt + 1;
  }

  // ---------------------------------------------------------------- whole directories

  /** Directory `d` has been numbered. */
  ghost predicate DirNumbered(k: Disk, fents: seq<Fent>, d: int) {
    && DiskShape(k) && 0 <= d < |k.sizes| == |fents| && k.t.bpc > 0 && SectorSize(k.l.bps)
    && Numbered(k.t, fents, k.sizes, d)
    && (k.t.links[d].parent == NONE || 0 <= k.t.links[d].parent < |fents|)
    && EntriesIn(k.t.links[d].entries, |fents|)
    && (forall f :: 0 <= f < |k.t.attrs| ==> NulFree(k.t.attrs[f].name))
  }

  /** A drive label reserves a slot number in the root for which nothing is written: slot numbers run
      ahead of disk positions by this much. */
  function Ahead(k: Disk, d: int): nat
    requires DiskShape(k) && 0 <= d < |k.sizes|
  {
    if SlotBase(k.t, d) >= HeadCount(k, d) then SlotBase(k.t, d) - HeadCount(k, d) else 0
  }

  /** That does no harm if everything fits into the first sector. */
  predicate LabelSafe(k: Disk, fents: seq<Fent>, d: int)
    requires DiskShape(k) && 0 <= d < |k.sizes| == |fents|
  {
    SlotBase(k.t, d) == HeadCount(k, d) || fents[d].total <= k.l.bps / 32
  }

  /** A read from `sector` on is the matching slice. */
  predicate Steady(k: Disk, fents: seq<Fent>, d: int, sector: nat)
    requires DiskShape(k) && 0 <= d < |k.sizes| == |fents|
  {
    sector == 0 || LabelSafe(k, fents, d)
  }

  /** Only the root can have a label slot. */
  lemma OthersSteady(k: Disk, fents: seq<Fent>, d: int)
    requires DirNumbered(k, fents, d) && k.t.links[d].parent != NONE
    ensures LabelSafe(k, fents, d)
  {
  }

  function Max(a: nat, b: nat): nat {
    if a < b then b else a
  }

  lemma OccursCell(whole: seq<Block>, p: nat, part: seq<Block>, x: nat)
    requires OccursAt(whole, p, part) && x < 32 * |part|
    ensures DirCell(whole, 32 * p + x) == DirCell(part, x)
  {
    var q, r := x / 32, x % 32;
    SlotIndex(p + q, r);
    assert whole[p + q] == part[q];
  }

  /** Slots of a part shown are slots of the whole shown. */
  lemma OccursShown(buffer: array<byte>, at: nat, whole: seq<Block>, p: nat, part: seq<Block>, skip: nat, n: nat)
    requires OccursAt(whole, p, part) && skip + n <= |part| && at + 32 * n <= buffer.Length
    requires ShowsSlots(buffer, at, part, skip, n)
    ensures ShowsSlots(buffer, at, whole, p + skip, n)
  {
    forall b | at <= b < at + 32 * n
      ensures Shows(DirCell(whole, 32 * (p + skip) + (b - at)), buffer[b])
    {
      OccursCell(whole, p, part, 32 * skip + (b - at));
    }
  }

  /** `n` slots shown behind `i` slots make `i + n` slots shown. */
  lemma ShowsMore(buffer: array<byte>, at: nat, slots: seq<Block>, first: nat, i: nat, n: nat)
    requires at + 32 * (i + n) <= buffer.Length
    requires ShowsSlots(buffer, at, slots, first, i)
    requires ShowsSlots(buffer, at + 32 * i, slots, first + i, n)
    ensures ShowsSlots(buffer, at, slots, first, i + n)
  {
    forall b | at <= b < at + 32 * (i + n)
      ensures Shows(DirCell(slots, 32 * first + (b - at)), buffer[b])
    {
      if b >= at + 32 * i {
        assert 32 * first + (b - at) == 32 * (first + i) + (b - (at + 32 * i));
      }
    }
  }

  /** The reading position and slot number `ent` fit together. */
  ghost predicate InStep(k: Disk, d: int, first: nat, ent: nat)
    requires DiskShape(k) && 0 <= d < |k.sizes|
  {
    (first == 0 && ent == HeadCount(k, d)) || (ent == first + Ahead(k, d) && SlotBase(k.t, d) >= HeadCount(k, d))
  }

  /** An entry is passed over exactly when it ends before the reading position; otherwise reading goes
      on at its first slot that is not before `ent`. */
  lemma EntryPosition(k: Disk, fents: seq<Fent>, d: int, j: nat, first: nat, ent: nat, i: nat)
    requires DirNumbered(k, fents, d) && j < |k.t.links[d].entries| && InStep(k, d, first, ent)
    requires first + i == Max(first, DiskPos(k, d, j))
    ensures
      var f := k.t.links[d].entries[j];
      && 0 <= f < |fents| && fents[f].extra + 1 == SlotsOf(k.t, f)
      && DiskPos(k, d, j + 1) == DiskPos(k, d, j) + SlotsOf(k.t, f)
      && if fents[f].start + fents[f].extra + 1 <= ent then first + i == Max(first, DiskPos(k, d, j + 1))
         else Skipped(fents[f], ent) <= fents[f].extra && first + i == DiskPos(k, d, j) + Skipped(fents[f], ent)
  {
    assert EntryNumbered(k.t, fents, d, j);
  }

  /** Emits file `f`, which begins at slot `pos` of the directory, behind `i` slots already shown. */
  method FillBehind(k: Disk, ghost bs: seq<seq<Block>>, ghost dir: seq<Block>, fent: Fent, f: int, ghost pos: nat,
                    ghost first: nat, ent: nat, buffer: array<byte>, at: nat, i: nat, mx: nat) returns (c: nat)
    requires DiskShape(k) && 0 <= f < |k.sizes| && NulFree(k.t.attrs[f].name) && Renders(k, bs)
    requires fent.extra + 1 == SlotsOf(k.t, f) && Skipped(fent, ent) <= fent.extra
    requires OccursAt(dir, pos, bs[f]) && |bs[f]| == SlotsOf(k.t, f) && first + i == pos + Skipped(fent, ent)
    requires 0 < mx && at + 32 * (i + mx) <= buffer.Length
    requires ShowsSlots(buffer, at, dir, first, i)
    modifies buffer
    ensures c == Min(mx, SlotsOf(k.t, f) - Skipped(fent, ent))
    ensures ShowsSlots(buffer, at, dir, first, i + c)
    ensures forall b :: 0 <= b < buffer.Length && !(at <= b < at + 32 * (i + c)) ==> buffer[b] == old(buffer[b])
  {
    c := FillDirent(k, bs, fent, buffer, at + 32 * i, f, ent, mx);
    OccursShown(buffer, at + 32 * i, dir, pos, bs[f], Skipped(fent, ent), c);
    ShowsMore(buffer, at, dir, first, i, c);
  }

  lemma RenderedCount(k: Disk, bs: seq<seq<Block>>, f: int)
    requires Renders(k, bs) && 0 <= f < |bs|
    ensures |bs[f]| == SlotsOf(k.t, f)
  {
    assert RendersAt(k, bs, f);
  }

  /** Emits entry `j`, or skips it when it lies before slot number `ent`. */
  method EmitEntry(k: Disk, ghost bs: seq<seq<Block>>, ghost dir: seq<Block>, fents: seq<Fent>, d: int, j: nat,
                   ghost first: nat, ent: nat, buffer: array<byte>, at: nat, i: nat, mx: nat) returns (c: nat)
    requires DirNumbered(k, fents, d) && j < |k.t.links[d].entries| && Renders(k, bs) && HoldsEntries(k, bs, dir, d)
    requires 0 < mx && at + 32 * (i + mx) <= buffer.Length
    requires InStep(k, d, first, ent)
    requires first + i == Max(first, DiskPos(k, d, j))
    requires ShowsSlots(buffer, at, dir, first, i)
    modifies buffer
    ensures c <= mx && ShowsSlots(buffer, at, dir, first, i + c)
    ensures c == mx || first + i + c == Max(first, DiskPos(k, d, j + 1))
    ensures forall b :: 0 <= b < buffer.Length && !(at <= b < at + 32 * (i + c)) ==> buffer[b] == old(buffer[b])
  {
    var f := k.t.links[d].entries[j];
    EntryPosition(k, fents, d, j, first, ent, i);
    if fents[f].start + fents[f].extra + 1 <= ent {
      c := 0;
    } else {
      assert HoldsEntry(k, bs, dir, d, j);
      RenderedCount(k, bs, f);
      c := FillBehind(k, bs, dir, fents[f], f, DiskPos(k, d, j), first, ent, buffer, at, i, mx);
    }
  }

  /** The loop over the entries of a directory. */
  method EmitEntries(k: Disk, ghost bs: seq<seq<Block>>, ghost dir: seq<Block>, fents: seq<Fent>, d: int,
                     ghost first: nat, ent: nat, buffer: array<byte>, at: nat, i0: nat, mx0: nat)
    returns (i: nat, mx: nat)
    requires DirNumbered(k, fents, d) && Renders(k, bs) && HoldsEntries(k, bs, dir, d)
    requires 0 < mx0 && at + 32 * (i0 + mx0) <= buffer.Length
    requires InStep(k, d, first, ent)
    requires first + i0 == Max(first, HeadCount(k, d))
    requires ShowsSlots(buffer, at, dir, first, i0)
    modifies buffer
    ensures i + mx == i0 + mx0
    ensures ShowsSlots(buffer, at, dir, first, i)
    ensures mx == 0 || first + i == Max(first, |dir|)
    ensures forall b :: 0 <= b < buffer.Length && !(at <= b < at + 32 * i) ==> buffer[b] == old(buffer[b])
  {
    i, mx := i0, mx0;
    var j := 0;
    while j < |k.t.links[d].entries|
      invariant 0 <= j <= |k.t.links[d].entries|
      invariant i + mx == i0 + mx0 && 0 < mx
      invariant first + i == Max(first, DiskPos(k, d, j))
      invariant ShowsSlots(buffer, at, dir, first, i)
      invariant forall b :: 0 <= b < buffer.Length && !(at <= b < at + 32 * i) ==> buffer[b] == old(buffer[b])
    {
      var c := EmitEntry(k, bs, dir, fents, d, j, first, ent, buffer, at, i, mx);
      i, mx := i + c, mx - c;
      if mx == 0 {
        return;
      }
      j := j + 1;
    }
  }

  /** The "." and ".." entries. */
  method WriteDots(k: Disk, d: int, buffer: array<byte>, at: nat)
    requires DiskShape(k) && 0 <= d < |k.sizes| && HeadCount(k, d) == 2 && at + 64 <= buffer.Length
    requires EntriesIn(k.t.links[d].entries, |k.sizes|)
    modifies buffer
    ensures ShowsSlots(buffer, at, DirBlocks(k, d), 0, 2)
    ensures forall b :: 0 <= b < buffer.Length && !(at <= b < at + 64) ==> buffer[b] == old(buffer[b])
  {
    ghost var dir := DirBlocks(k, d);
    DirCount(k, d);
    StoreNext(buffer, at, ShortSlotOf(k, d, DotField(1)), dir, 0, 0);
    StoreNext(buffer, at, ShortSlotOf(k, k.t.links[d].parent, DotField(2)), dir, 0, 1);
  }

  method ZeroFill(buffer: array<byte>, from: nat, n: nat)
    requires from + n <= buffer.Length
    modifies buffer
    ensures forall b :: from <= b < from + n ==> buffer[b] == 0
    ensures forall b :: 0 <= b < buffer.Length && !(from <= b < from + n) ==> buffer[b] == old(buffer[b])
  {
    var i := 0;
    while i < n
      invariant 0 <= i <= n
      invariant forall b :: from <= b < from + i ==> buffer[b] == 0
      invariant forall b :: 0 <= b < buffer.Length && !(from <= b < from + i) ==> buffer[b] == old(buffer[b])
    {
      buffer[from + i] := 0;
      i := i + 1;
    }
  }

  /** Everything behind the last slot is zero. */
  method ZeroSlots(buffer: array<byte>, at: nat, ghost dir: seq<Block>, ghost first: nat, i: nat, mx: nat)
    requires at + 32 * (i + mx) <= buffer.Length
    requires ShowsSlots(buffer, at, dir, first, i)
    requires mx == 0 || first + i >= |dir|
    modifies buffer
    ensures ShowsSlots(buffer, at, dir, first, i + mx)
    ensures forall b :: 0 <= b < buffer.Length && !(at <= b < at + 32 * (i + mx)) ==> buffer[b] == old(buffer[b])
  {
    ZeroFill(buffer, at + 32 * i, 32 * mx);
    assert ShowsSlots(buffer, at, dir, first, i);
    forall b | at + 32 * i <= b < at + 32 * i + 32 * mx
      ensures Shows(DirCell(dir, 32 * (first + i) + (b - (at + 32 * i))), buffer[b])
    {
      SlotIndex(first + i + (b - (at + 32 * i)) / 32, (b - (at + 32 * i)) % 32);
    }
    ShowsMore(buffer, at, dir, first, i, mx);
  }

  /** The disk position at which reading from slot number `ent` begins. */
  function FirstShown(k: Disk, d: int, ent: nat): nat
    requires DiskShape(k) && 0 <= d < |k.sizes|
  {
    if ent < Ahead(k, d) then 0 else ent - Ahead(k, d)
  }

  /** The `n` slots from slot number `start` on. */
  method EmitSlots(k: Disk, fents: seq<Fent>, d: int, start: nat, n: nat, buffer: array<byte>, at: nat)
    requires DirNumbered(k, fents, d) && 2 < n && at + 32 * n <= buffer.Length
    requires start == 0 || k.l.bps / 32 <= start
    modifies buffer
    ensures ShowsSlots(buffer, at, DirBlocks(k, d), FirstShown(k, d, start), n)
    ensures forall b :: 0 <= b < buffer.Length && !(at <= b < at + 32 * n) ==> buffer[b] == old(buffer[b])
  {
    ghost var bs, dir, first := AllBlocks(k), DirBlocks(k, d), FirstShown(k, d, start);
    AllBlocksRender(k);
    DirHoldsEntries(k, d);
    var i, ent := 0, start;
    if start == 0 {
      if k.t.links[d].parent != NONE {
        WriteDots(k, d, buffer, at);
        i := 2;
      }
      ent := i;
    }
    var mx := n - i;
    if ent < fents[d].total {
      i, mx := EmitEntries(k, bs, dir, fents, d, first, ent, buffer, at, i, mx);
    }
    ZeroSlots(buffer, at, dir, first, i, mx);
  }

  /** The byte of the directory that a read from `sector` on shows first. */
  function SliceStart(k: Disk, d: int, sector: nat): nat
    requires DiskShape(k) && 0 <= d < |k.sizes|
  {
    32 * FirstShown(k, d, sector * (k.l.bps / 32))
  }

  /** Bytes of the buffer show bytes from, from + 1, ... of a directory. */
  ghost predicate ShowsDir(buffer: array<byte>, at: nat, dir: seq<Block>, from: nat, n: nat)
    reads buffer
    requires at + n <= buffer.Length
  {
    forall b :: at <= b < at + n ==> Shows(DirCell(dir, from + (b - at)), buffer[b])
  }

  /** `read_sector_dir`: from any sector on, a slice of the directory, including a start in the middle of
      a long-name group. Without a label it is the matching slice; with one, reads that do not start at
      sector 0 begin one slot early. */
  method ReadSectorDir(k: Disk, fents: seq<Fent>, d: int, sector: nat, scnt: nat, buffer: array<byte>, at: nat)
    requires DirNumbered(k, fents, d) && 0 < scnt && at + scnt * k.l.bps <= buffer.Length
    modifies buffer
    ensures ShowsDir(buffer, at, DirBlocks(k, d), SliceStart(k, d, sector), scnt * k.l.bps)
    ensures forall b :: 0 <= b < buffer.Length && !(at <= b < at + scnt * k.l.bps) ==> buffer[b] == old(buffer[b])
  {
    var dps := k.l.bps / 32;
    assert k.l.bps == 32 * dps && dps >= 16;
    SlotsPerSector(scnt, dps);
    MulMono(1, scnt, dps);
    if sector > 0 {
      MulMono(1, sector, dps);
    }
    EmitSlots(k, fents, d, sector * dps, scnt * dps, buffer, at);
    SlotsAreBytes(buffer, at, DirBlocks(k, d), FirstShown(k, d, sector * dps), scnt * dps, SliceStart(k, d, sector),
                  scnt * k.l.bps);
  }

  lemma SlotsAreBytes(buffer: array<byte>, at: nat, dir: seq<Block>, first: nat, n: nat, from: nat, bytes: nat)
    requires at + 32 * n <= buffer.Length && from == 32 * first && bytes == 32 * n
    requires ShowsSlots(buffer, at, dir, first, n)
    ensures ShowsDir(buffer, at, dir, from, bytes)
  {
  }

  /** The slice is the matching one if and only if the read starts at sector 0 or no label slot is numbered. */
  lemma SliceMatches(k: Disk, d: int, sector: nat)
    requires DiskShape(k) && 0 <= d < |k.sizes| && SectorSize(k.l.bps)
    ensures SliceStart(k, d, sector) == sector * k.l.bps <==> sector == 0 || Ahead(k, d) == 0
  {
    var dps := k.l.bps / 32;
    assert k.l.bps == 32 * dps;
    SlotsPerSector(sector, dps);
    if sector > 0 {
      MulMono(1, sector, dps);
    }
  }

  /** If the directory fits into its first sector, the difference cannot be seen. */
  lemma SliceUnseen(k: Disk, fents: seq<Fent>, d: int, sector: nat, x: nat)
    requires DirNumbered(k, fents, d) && LabelSafe(k, fents, d) && sector > 0 && Ahead(k, d) > 0
    ensures DirCell(DirBlocks(k, d), SliceStart(k, d, sector) + x) == Is(0)
    ensures DirCell(DirBlocks(k, d), sector * k.l.bps + x) == Is(0)
  {
    var dps := k.l.bps / 32;
    assert k.l.bps == 32 * dps;
    SlotsPerSector(sector, dps);
    DirCount(k, d);
    MulMono(1, sector, dps);
  }

  /** A read that starts at the first sector or is not disturbed by a label. */
  method ReadDirSlice(k: Disk, fents: seq<Fent>, d: int, sector: nat, scnt: nat, buffer: array<byte>, at: nat)
    requires DirNumbered(k, fents, d) && Steady(k, fents, d, sector) && 0 < scnt && at + scnt * k.l.bps <= buffer.Length
    modifies buffer
    ensures ShowsDir(buffer, at, DirBlocks(k, d), sector * k.l.bps, scnt * k.l.bps)
    ensures forall b :: 0 <= b < buffer.Length && !(at <= b < at + scnt * k.l.bps) ==> buffer[b] == old(buffer[b])
  {
    ReadSectorDir(k, fents, d, sector, scnt, buffer, at);
    SliceShown(k, fents, d, sector, scnt * k.l.bps, buffer, at);
  }

  lemma SliceShown(k: Disk, fents: seq<Fent>, d: int, sector: nat, n: nat, buffer: array<byte>, at: nat)
    requires DirNumbered(k, fents, d) && Steady(k, fents, d, sector) && at + n <= buffer.Length
    requires ShowsDir(buffer, at, DirBlocks(k, d), SliceStart(k, d, sector), n)
    ensures ShowsDir(buffer, at, DirBlocks(k, d), sector * k.l.bps, n)
  {
    SlicesMatch(k, fents, d, sector, n);
    ShownSame(buffer, at, DirBlocks(k, d), SliceStart(k, d, sector), sector * k.l.bps, n);
  }

  ghost predicate SameCell(dir: seq<Block>, from: nat, to: nat, x: int)
    requires 0 <= x
  {
    DirCell(dir, from + x) == DirCell(dir, to + x)
  }

  ghost predicate SameCells(dir: seq<Block>, from: nat, to: nat, n: nat) {
    forall x {:trigger SameCell(dir, from, to, x)} :: 0 <= x < n ==> SameCell(dir, from, to, x)
  }

  lemma SlicesMatch(k: Disk, fents: seq<Fent>, d: int, sector: nat, n: nat)
    requires DirNumbered(k, fents, d) && Steady(k, fents, d, sector)
    ensures SameCells(DirBlocks(k, d), SliceStart(k, d, sector), sector * k.l.bps, n)
  {
    var dir, from, to := DirBlocks(k, d), SliceStart(k, d, sector), sector * k.l.bps;
    SliceMatches(k, d, sector);
    forall x {:trigger SameCell(dir, from, to, x)} | 0 <= x < n
      ensures SameCell(dir, from, to, x)
    {
      if sector > 0 && Ahead(k, d) > 0 {
        SliceUnseen(k, fents, d, sector, x);
      }
    }
  }

  lemma ShownSame(buffer: array<byte>, at: nat, dir: seq<Block>, from: nat, to: nat, n: nat)
    requires at + n <= buffer.Length && SameCells(dir, from, to, n)
    requires ShowsDir(buffer, at, dir, from, n)
    ensures ShowsDir(buffer, at, dir, to, n)
  {
    forall b | at <= b < at + n
      ensures Shows(DirCell(dir, to + (b - at)), buffer[b])
    {
      assert SameCell(dir, from, to, b - at);
    }
  }

  // ---------------------------------------------------------------- a labelled root

  /** A read from `sector` on shows the right byte at its offset `x`. */
  predicate RightByte(k: Disk, d: int, sector: nat, x: nat)
    requires DiskShape(k) && 0 <= d < |k.sizes|
  {
    DirCell(DirBlocks(k, d), SliceStart(k, d, sector) + x) == DirCell(DirBlocks(k, d), sector * k.l.bps + x)
  }

  /** Every read of the directory shows the right bytes if and only if no label slot is numbered or all slots fit
      into the first sector. */
  lemma EveryReadMatches(k: Disk, fents: seq<Fent>, d: int)
    requires DirNumbered(k, fents, d) && (forall f :: 0 <= f < |k.t.attrs| ==> NulFree(k.t.attrs[f].shortname))
    ensures (forall sector: nat, x: nat :: RightByte(k, d, sector, x)) <==> LabelSafe(k, fents, d)
  {
    if LabelSafe(k, fents, d) {
      forall sector: nat, x: nat
        ensures RightByte(k, d, sector, x)
      {
        SlicesMatch(k, fents, d, sector, x + 1);
        assert SameCell(DirBlocks(k, d), SliceStart(k, d, sector), sector * k.l.bps, x);
      }
    } else {
      WrongByte(k, fents, d);
    }
  }

  /** Otherwise the second sector shows the last slot of the directory, which it already has shown, a second time. */
  lemma WrongByte(k: Disk, fents: seq<Fent>, d: int)
    requires DirNumbered(k, fents, d) && !LabelSafe(k, fents, d)
    requires forall f :: 0 <= f < |k.t.attrs| ==> NulFree(k.t.attrs[f].shortname)
    ensures |DirBlocks(k, d)| >= k.l.bps / 32
    ensures !RightByte(k, d, 1, 32 * (|DirBlocks(k, d)| - k.l.bps / 32))
  {
    var dir, es, dps := DirBlocks(k, d), k.t.links[d].entries, k.l.bps / 32;
    assert k.l.bps == 32 * dps && dps >= 16;
    DirCount(k, d);
    var f := es[|es| - 1];
    ShortBlock(k, d, |es| - 1);
    FirstByteOfName(k.t.attrs[f].shortname);
    SlotIndex(|dir| - 1, 0);
    SlotIndex(|dir|, 0);
  }

  lemma SlotsPerSector(n: nat, dps: nat)
    ensures n * (32 * dps) == 32 * (n * dps)
  {
  }
}
