/** Writing the reserved sectors and the master boot record (libvdf/bootblock.c). */
module BootReader {
  import opened Bytes
  import opened Volume
  import opened FileTree
  import opened DirReader
  import opened FatReader
  import opened BootRecords

  /** `read_sector_fsinfo`: 512 bytes, whatever the sector size. */
  method ReadSectorFsinfo(clusters: nat, dataClusterEnd: nat, buffer: array<byte>, at: nat)
    requires at + 512 <= buffer.Length && dataClusterEnd >= 2
    modifies buffer
    ensures forall b :: at <= b < at + 512 ==>
                          buffer[b] == FsInfoByte(Wrap32(clusters - (dataClusterEnd - 2)), dataClusterEnd, b - at)
    ensures forall b :: 0 <= b < buffer.Length && !(at <= b < at + 512) ==> buffer[b] == old(buffer[b])
  {
    var free := Wrap32(clusters - (dataClusterEnd - 2));
    StoreLe(buffer, at, 4, 0x41615252);
    ZeroFill(buffer, at + 4, 480);
    StoreLe(buffer, at + 484, 4, 0x61417272);
    StoreLe(buffer, at + 488, 4, free);
    StoreLe(buffer, at + 492, 4, dataClusterEnd);
    ZeroFill(buffer, at + 496, 12);
    StoreLe(buffer, at + 508, 4, 0xaa550000);
  }

  lemma RecordShown(buffer: array<byte>, at: nat, rec: seq<Cell>)
    requires |rec| == 512 && ShowsRecord(buffer, at, rec, 0, 512)
    ensures forall b :: at <= b < at + 512 ==> Shows(rec[b - at], buffer[b])
  {
    forall b | at <= b < at + 512
      ensures Shows(rec[b - at], buffer[b])
    {
      assert Shows(rec[b - at], buffer[at + (b - at)]);
    }
  }

  /** One reserved sector. */
  method WriteBootSector(l: Layout, serial: u32, title: Label, root: nat, dataClusterEnd: nat, ghost v: Volume,
                         sector: nat, buffer: array<byte>, at: nat)
    requires v.l == l && v.boot == BootRecord(l, serial, title, root) && ClusterEnd(v.xs) == dataClusterEnd >= 2
    requires SectorSize(l.bps) && !l.fs.FAT12? && at + l.bps <= buffer.Length
    modifies buffer
    ensures forall b :: at <= b < at + l.bps ==> Shows(BootCell(v, sector, b - at), buffer[b])
    ensures forall b :: 0 <= b < buffer.Length && !(at <= b < at + l.bps) ==> buffer[b] == old(buffer[b])
  {
    if l.fs.FAT32? && sector == 1 {
      ReadSectorFsinfo(l.clusters, dataClusterEnd, buffer, at);
    } else if !(l.fs.FAT32? && sector == 6) && sector != 0 {
      ZeroFill(buffer, at, l.bps);
    } else {
      WriteBootRecord(l, serial, title, root, buffer, at);
      RecordShown(buffer, at, v.boot);
    }
  }

  /** Bytes of the buffer show bytes base, base + 1, ... of the reserved sectors. */
  ghost predicate ShowsBoot(buffer: array<byte>, at: nat, v: Volume, base: nat, n: nat)
    reads buffer
    requires v.l.bps > 0 && at + n <= buffer.Length
  {
    forall b :: at <= b < at + n ==> Shows(BootAt(v, base + (b - at)), buffer[b])
  }

  lemma SectorSplit(bps: nat, s: nat, r: nat)
    requires r < bps
    ensures (s * bps + r) / bps == s && (s * bps + r) % bps == r
  {
    var q, t := (s * bps + r) / bps, (s * bps + r) % bps;
    assert q * bps + t == s * bps + r;
    if q < s {
      MulMono(q + 1, s, bps);
    } else if s < q {
      MulMono(s + 1, q, bps);
    }
  }

  /** `read_sector_boot`. */
  method ReadSectorBoot(l: Layout, serial: u32, title: Label, root: nat, dataClusterEnd: nat, ghost v: Volume,
                        sector: nat, scnt: nat, buffer: array<byte>, at: nat)
    requires v.l == l && v.boot == BootRecord(l, serial, title, root) && ClusterEnd(v.xs) == dataClusterEnd >= 2
    requires SectorSize(l.bps) && !l.fs.FAT12? && at + scnt * l.bps <= buffer.Length
    modifies buffer
    ensures ShowsBoot(buffer, at, v, sector * l.bps, scnt * l.bps)
    ensures forall b :: 0 <= b < buffer.Length && !(at <= b < at + scnt * l.bps) ==> buffer[b] == old(buffer[b])
  {
    var q, n := 0, 0;
    while q < scnt
      invariant 0 <= q <= scnt && n == q * l.bps <= scnt * l.bps
      invariant ShowsBoot(buffer, at, v, sector * l.bps, n)
      invariant forall b :: 0 <= b < buffer.Length && !(at <= b < at + n) ==> buffer[b] == old(buffer[b])
    {
      MulSplit(q, 1, l.bps);
      MulMono(q + 1, scnt, l.bps);
      BootStep(l, serial, title, root, dataClusterEnd, v, sector, q, n, buffer, at);
      q, n := q + 1, n + l.bps;
    }
  }

  /** One more sector behind `q` sectors already shown. */
  method BootStep(l: Layout, serial: u32, title: Label, root: nat, dataClusterEnd: nat, ghost v: Volume, sector: nat,
                  q: nat, n: nat, buffer: array<byte>, at: nat)
    requires v.l == l && v.boot == BootRecord(l, serial, title, root) && ClusterEnd(v.xs) == dataClusterEnd >= 2
    requires SectorSize(l.bps) && !l.fs.FAT12? && n == q * l.bps && at + n + l.bps <= buffer.Length
    requires ShowsBoot(buffer, at, v, sector * l.bps, n)
    modifies buffer
    ensures ShowsBoot(buffer, at, v, sector * l.bps, n + l.bps)
    ensures forall b :: 0 <= b < buffer.Length && !(at <= b < at + n + l.bps) ==> buffer[b] == old(buffer[b])
  {
    WriteBootSector(l, serial, title, root, dataClusterEnd, v, sector + q, buffer, at + n);
    ExtendBoot(buffer, at, v, sector, q);
  }

  lemma ExtendBoot(buffer: array<byte>, at: nat, v: Volume, sector: nat, q: nat)
    requires v.l.bps > 0 && at + q * v.l.bps + v.l.bps <= buffer.Length
    requires ShowsBoot(buffer, at, v, sector * v.l.bps, q * v.l.bps)
    requires forall b :: at + q * v.l.bps <= b < at + q * v.l.bps + v.l.bps ==>
                           Shows(BootCell(v, sector + q, b - (at + q * v.l.bps)), buffer[b])
    ensures ShowsBoot(buffer, at, v, sector * v.l.bps, q * v.l.bps + v.l.bps)
  {
    var bps := v.l.bps;
    var pos := at + q * bps;
    MulSplit(sector, q, bps);
    forall b | at <= b < pos + bps
      ensures Shows(BootAt(v, sector * bps + (b - at)), buffer[b])
    {
      if b >= pos {
        BootAtSector(v, sector + q, b - pos);
        assert sector * bps + (b - at) == (sector + q) * bps + (b - pos);
      }
    }
  }

  lemma BootAtSector(v: Volume, s: nat, r: nat)
    requires r < v.l.bps
    ensures BootAt(v, s * v.l.bps + r) == BootCell(v, s, r)
  {
    SectorSplit(v.l.bps, s, r);
  }
}
