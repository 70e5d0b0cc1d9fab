/** The boot record and the master boot record: their 512 bytes field by field (libvdf/bootblock.c). */
module BootRecords {
  import opened Bytes
  import opened Volume
  import opened Names
  import opened FileTree
  import opened DirReader
  import opened FatReader

  // ---------------------------------------------------------------- what the bytes are

  const OEM_NAME: Name := [77, 83, 87, 73, 78, 52, 46, 49]

  function FsName(fs: FileSys): (r: Name)
    ensures |r| == 8
  {
    [70, 65, 84] + (match fs case FAT12 => [49, 50] case FAT16 => [49, 54] case FAT32 => [51, 50]) +
    [SPACE, SPACE, SPACE]
  }

  /** The 16-bit sector count; 0 means that the 32-bit count holds. */
  function SmallCount(l: Layout): nat {
    if l.fs.FAT32? || l.sectors >= 0x1_0000 then 0 else l.sectors
  }

  /** The fields that all types have, up to byte 32. */
  function CommonByte(l: Layout, r: nat): byte {
    if r < 3 then 0
    else if r < 11 then OEM_NAME[r - 3]
    else if r < 13 then LeByte(l.bps, r - 11)
    else if r < 14 then LeByte(l.spc, r - 13)
    else if r < 16 then LeByte(l.fat1Start, r - 14)
    else if r < 17 then 2
    else if r < 19 then LeByte(RootCount(l), r - 17)
    else if r < 21 then LeByte(SmallCount(l), r - 19)
    else if r < 22 then 0xf8
    else if r < 24 then LeByte(if l.fs.FAT32? then 0 else l.fatSectors, r - 22)
    else if r < 26 then LeByte(1, r - 24)
    else if r < 28 then LeByte(1, r - 26)
    else 0
  }

  function RootCount(l: Layout): nat {
    if l.fs.FAT32? then 0 else l.rootDirCnt % 0x1_0000
  }

  /** The fields that only FAT32 has, from byte 32 on. */
  function Fat32Byte(l: Layout, root: nat, r: nat): byte
    requires 32 <= r
  {
    if r < 36 then LeByte(l.sectors, r - 32)
    else if r < 40 then LeByte(l.fatSectors, r - 36)
    else if r < 44 then 0
    else if r < 48 then LeByte(root, r - 44)
    else if r < 50 then LeByte(1, r - 48)
    else if r < 52 then LeByte(6, r - 50)
    else 0
  }

  /** The label field as the code fills it: it looks at up to twelve characters, drops the spaces among them and
      writes one more byte than the field has. */
  function LabelBytes(text: Name): (r: Name)
    ensures |r| <= 12
  {
    var m := Min(|text|, 12);
    Stuffed(text[..m]) + Spaces(12 - m)
  }

  function Spaces(n: nat): (r: Name)
    ensures |r| == n
  {
    seq(n, i => SPACE)
  }

  /** Byte `t` of the eleven bytes of the label and the eight of the type, which follows it. */
  function LabelCell(fs: FileSys, title: Label, t: nat): Cell {
    if title.Labelled? && t < |LabelBytes(title.text)| then Is(LabelBytes(title.text)[t])
    else if 11 <= t < 19 then Is(FsName(fs)[t - 11])
    else if title.Labelled? then Any
    else Is(SPACE)
  }

  function TailCell(fs: FileSys, serial: u32, title: Label, t: nat): Cell {
    if t == 0 then Is(0x80)
    else if t == 1 then Is(0)
    else if t == 2 then Is(0x29)
    else if t < 7 then Is(LeByte(serial, t - 3))
    else LabelCell(fs, title, t - 7)
  }

  /** Where the fields behind the sector counts begin. */
  function TailStart(fs: FileSys): nat {
    if fs.FAT32? then 64 else 36
  }

  /** Byte `r` of the boot record. On FAT16 the 32-bit sector count stays as it is unless the 16-bit one is 0. */
  function BootByte(l: Layout, serial: u32, title: Label, root: nat, r: nat): Cell {
    if r < 32 then Is(CommonByte(l, r))
    else if r < TailStart(l.fs) then
      (if l.fs.FAT32? then Is(Fat32Byte(l, root, r))
       else if SmallCount(l) == 0 then Is(LeByte(l.sectors, r - 32)) else Any)
    else if r < TailStart(l.fs) + 26 then TailCell(l.fs, serial, title, r - TailStart(l.fs))
    else if r == 510 then Is(0xaa)
    else if r == 511 then Is(0x55)
    else Is(0)
  }

  function BootRecord(l: Layout, serial: u32, title: Label, root: nat): (rec: seq<Cell>)
    ensures |rec| == 512
  {
    seq(512, r requires 0 <= r => BootByte(l, serial, title, root, r))
  }

  function PartitionType(fs: FileSys): byte {
    match fs
    case FAT12 => 0x01
    case FAT16 => 0x0e
    case FAT32 => 0x0c
  }

  function PartitionByte(l: Layout, t: nat): byte {
    if t == 0 then 0x80
    else if t == 4 then PartitionType(l.fs)
    else if 8 <= t < 12 then LeByte(l.mbrSectors, t - 8)
    else if 12 <= t < 16 then LeByte(l.sectors, t - 12)
    else 0
  }

  /** Byte `r` of the master boot record; its first partition is the drive, the others are empty. */
  function MbrByte(l: Layout, serial: u32, r: nat): byte {
    if r < 440 then 0
    else if r < 444 then LeByte(serial, r - 440)
    else if 446 <= r < 462 then PartitionByte(l, r - 446)
    else if r == 510 then 0x55
    else if r == 511 then 0xaa
    else 0
  }

  function MbrRecord(l: Layout, serial: u32): (rec: seq<Cell>)
    ensures |rec| == 512
  {
    seq(512, r requires 0 <= r => Is(MbrByte(l, serial, r)))
  }

  // ---------------------------------------------------------------- writing fields

  /** Bytes `from` up to `to` of the record are in the buffer. */
  ghost predicate ShowsRecord(buffer: array<byte>, at: nat, rec: seq<Cell>, from: nat, to: nat)
    reads buffer
  {
    && at + to <= buffer.Length && to <= |rec|
    && forall r {:trigger rec[r]} :: from <= r < to ==> Shows(rec[r], buffer[at + r])
  }

  ghost predicate IsField(rec: seq<Cell>, p: nat, w: nat, v: nat) {
    && p + w <= |rec|
    && (w > 0 ==> rec[p] == Is(LeByte(v, 0))) && (w > 1 ==> rec[p + 1] == Is(LeByte(v, 1)))
    && (w > 2 ==> rec[p + 2] == Is(LeByte(v, 2))) && (w > 3 ==> rec[p + 3] == Is(LeByte(v, 3)))
  }

  /** The next field, of `w` bytes. */
  method PutField(buffer: array<byte>, at: nat, ghost rec: seq<Cell>, ghost from: nat, p: nat, w: nat, v: nat)
    requires w <= 4 && at + p + w <= buffer.Length && from <= p && IsField(rec, p, w, v)
    requires ShowsRecord(buffer, at, rec, from, p)
    modifies buffer
    ensures ShowsRecord(buffer, at, rec, from, p + w)
    ensures forall b :: 0 <= b < buffer.Length && !(at + p <= b < at + p + w) ==> buffer[b] == old(buffer[b])
  {
    StoreLe(buffer, at + p, w, v);
    forall r {:trigger rec[r]} | from <= r < p + w
      ensures Shows(rec[r], buffer[at + r])
    {
      if r >= p {
        assert buffer[at + r] == LeByte(v, at + r - (at + p));
      }
    }
  }

  /** The next field, a text. */
  method PutText(buffer: array<byte>, at: nat, ghost rec: seq<Cell>, ghost from: nat, p: nat, text: Name)
    requires at + p + |text| <= buffer.Length && from <= p && p + |text| <= |rec|
    requires forall i :: 0 <= i < |text| ==> rec[p + i] == Is(text[i])
    requires ShowsRecord(buffer, at, rec, from, p)
    modifies buffer
    ensures ShowsRecord(buffer, at, rec, from, p + |text|)
    ensures forall b :: 0 <= b < buffer.Length && !(at + p <= b < at + p + |text|) ==> buffer[b] == old(buffer[b])
  {
    WriteText(buffer, at + p, text);
    forall r {:trigger rec[r]} | from <= r < p + |text|
      ensures Shows(rec[r], buffer[at + r])
    {
      if r >= p {
        assert rec[p + (r - p)] == Is(text[r - p]);
      }
    }
  }

  method WriteText(buffer: array<byte>, pos: nat, text: Name)
    requires pos + |text| <= buffer.Length
    modifies buffer
    ensures forall b :: pos <= b < pos + |text| ==> buffer[b] == text[b - pos]
    ensures forall b :: 0 <= b < buffer.Length && !(pos <= b < pos + |text|) ==> buffer[b] == old(buffer[b])
  {
    var i := 0;
    while i < |text|
      invariant i <= |text|
      invariant forall b :: pos <= b < pos + i ==> buffer[b] == text[b - pos]
      invariant forall b :: 0 <= b < buffer.Length && !(pos <= b < pos + i) ==> buffer[b] == old(buffer[b])
    {
      buffer[pos + i] := text[i];
      i := i + 1;
    }
  }

  /** Zeros up to byte `to`. */
  method PutZeros(buffer: array<byte>, at: nat, ghost rec: seq<Cell>, ghost from: nat, p: nat, to: nat)
    requires from <= p <= to <= |rec| && at + to <= buffer.Length
    requires forall r :: p <= r < to ==> rec[r] == Is(0)
    requires ShowsRecord(buffer, at, rec, from, p)
    modifies buffer
    ensures ShowsRecord(buffer, at, rec, from, to)
    ensures forall b :: 0 <= b < buffer.Length && !(at + p <= b < at + to) ==> buffer[b] == old(buffer[b])
  {
    ZeroFill(buffer, at + p, to - p);
  }

  /** The label loop: it counts to twelve. */
  method WriteLabel(buffer: array<byte>, pos: nat, text: Name)
    requires pos + 12 <= buffer.Length
    modifies buffer
    ensures forall b :: pos <= b < pos + |LabelBytes(text)| ==> buffer[b] == LabelBytes(text)[b - pos]
    ensures forall b :: 0 <= b < buffer.Length && !(pos <= b < pos + |LabelBytes(text)|) ==> buffer[b] == old(buffer[b])
  {
    var m := Min(|text|, 12);
    ghost var stuffed := Stuffed(text[..m]);
    ghost var before := buffer[..pos];
    var d := StuffInto(buffer, pos, text[..m]);
    assert forall b :: 0 <= b < d ==> buffer[b] == (before + stuffed)[b];
    var i := m;
    while i < 12
      invariant m <= i <= 12 && d == pos + |stuffed| + (i - m) && |stuffed| <= m
      invariant forall b :: pos <= b < pos + |stuffed| ==> buffer[b] == stuffed[b - pos]
      invariant forall b :: pos + |stuffed| <= b < d ==> buffer[b] == SPACE
      invariant forall b :: 0 <= b < buffer.Length && !(pos <= b < d) ==> buffer[b] == old(buffer[b])
    {
      buffer[d] := SPACE;
      d, i := d + 1, i + 1;
    }
  }

  // ---------------------------------------------------------------- the records

  /** The fields that all types have. */
  method WriteCommon(l: Layout, ghost rec: seq<Cell>, buffer: array<byte>, at: nat)
    requires |rec| == 512 && at + 512 <= buffer.Length
    requires forall r {:trigger rec[r]} :: 0 <= r < 32 ==> rec[r] == Is(CommonByte(l, r))
    modifies buffer
    ensures ShowsRecord(buffer, at, rec, 0, 32)
    ensures forall b :: 0 <= b < buffer.Length && !(at <= b < at + 32) ==> buffer[b] == old(buffer[b])
  {
    PutField(buffer, at, rec, 0, 0, 3, 0);
    PutText(buffer, at, rec, 0, 3, OEM_NAME);
    PutField(buffer, at, rec, 0, 11, 2, l.bps);
    PutField(buffer, at, rec, 0, 13, 1, l.spc);
    PutField(buffer, at, rec, 0, 14, 2, l.fat1Start);
    PutField(buffer, at, rec, 0, 16, 1, 2);
    PutField(buffer, at, rec, 0, 17, 2, if l.fs.FAT32? then 0 else l.rootDirCnt % 0x1_0000);
    WriteSizes(l, rec, buffer, at);
  }

  method WriteSizes(l: Layout, ghost rec: seq<Cell>, buffer: array<byte>, at: nat)
    requires |rec| == 512 && at + 512 <= buffer.Length && ShowsRecord(buffer, at, rec, 0, 19)
    requires forall r {:trigger rec[r]} :: 0 <= r < 32 ==> rec[r] == Is(CommonByte(l, r))
    modifies buffer
    ensures ShowsRecord(buffer, at, rec, 0, 32)
    ensures forall b :: 0 <= b < buffer.Length && !(at + 19 <= b < at + 32) ==> buffer[b] == old(buffer[b])
  {
    PutField(buffer, at, rec, 0, 19, 2, if l.fs.FAT32? then 0 else if l.sectors < 0x1_0000 then l.sectors else 0);
    PutField(buffer, at, rec, 0, 21, 1, 0xf8);
    PutField(buffer, at, rec, 0, 22, 2, if l.fs.FAT32? then 0 else l.fatSectors);
    PutField(buffer, at, rec, 0, 24, 2, 1);
    PutField(buffer, at, rec, 0, 26, 2, 1);
    PutField(buffer, at, rec, 0, 28, 4, 0);
  }

  method WriteFat32(l: Layout, root: nat, ghost rec: seq<Cell>, buffer: array<byte>, at: nat)
    requires |rec| == 512 && at + 512 <= buffer.Length && ShowsRecord(buffer, at, rec, 0, 32)
    requires forall r {:trigger rec[r]} :: 32 <= r < 64 ==> rec[r] == Is(Fat32Byte(l, root, r))
    modifies buffer
    ensures ShowsRecord(buffer, at, rec, 0, 64)
    ensures forall b :: 0 <= b < buffer.Length && !(at + 32 <= b < at + 64) ==> buffer[b] == old(buffer[b])
  {
    PutField(buffer, at, rec, 0, 32, 4, l.sectors);
    PutField(buffer, at, rec, 0, 36, 4, l.fatSectors);
    PutField(buffer, at, rec, 0, 40, 4, 0);
    PutField(buffer, at, rec, 0, 44, 4, root);
    PutField(buffer, at, rec, 0, 48, 2, 1);
    PutField(buffer, at, rec, 0, 50, 2, 6);
    PutZeros(buffer, at, rec, 0, 52, 64);
  }

  /** Serial number, label and type. The type is written before the label, whose last byte may fall on it. */
  method WriteTail(fs: FileSys, serial: u32, title: Label, ghost rec: seq<Cell>, tail: nat, buffer: array<byte>,
                   at: nat)
    requires |rec| == 512 && at + 512 <= buffer.Length && tail + 26 <= 512 && ShowsRecord(buffer, at, rec, 0, tail)
    requires forall r {:trigger rec[r]} :: tail <= r < tail + 26 ==> rec[r] == TailCell(fs, serial, title, r - tail)
    modifies buffer
    ensures ShowsRecord(buffer, at, rec, 0, tail + 26)
    ensures forall b :: 0 <= b < buffer.Length && !(at + tail <= b < at + tail + 26) ==> buffer[b] == old(buffer[b])
  {
    PutField(buffer, at, rec, 0, tail, 1, 0x80);
    PutField(buffer, at, rec, 0, tail + 1, 1, 0);
    PutField(buffer, at, rec, 0, tail + 2, 1, 0x29);
    PutField(buffer, at, rec, 0, tail + 3, 4, serial);
    WriteLabelAndType(fs, title, buffer, at + tail + 7);
  }

  method WriteLabelAndType(fs: FileSys, title: Label, buffer: array<byte>, pos: nat)
    requires pos + 19 <= buffer.Length
    modifies buffer
    ensures forall b :: pos <= b < pos + 19 ==> Shows(LabelCell(fs, title, b - pos), buffer[b])
    ensures forall b :: 0 <= b < buffer.Length && !(pos <= b < pos + 19) ==> buffer[b] == old(buffer[b])
  {
    WriteText(buffer, pos + 11, FsName(fs));
    match title {
      case Labelled(text) => WriteLabel(buffer, pos, text);
      case Unlabelled => WriteText(buffer, pos, Spaces(11));
    }
  }

  /** `read_sector_boot`, the boot record itself, for FAT16 and FAT32. */
  method WriteBootRecord(l: Layout, serial: u32, title: Label, root: nat, buffer: array<byte>, at: nat)
    requires !l.fs.FAT12? && at + 512 <= buffer.Length
    modifies buffer
    ensures ShowsRecord(buffer, at, BootRecord(l, serial, title, root), 0, 512)
    ensures forall b :: 0 <= b < buffer.Length && !(at <= b < at + 512) ==> buffer[b] == old(buffer[b])
  {
    ghost var rec := BootRecord(l, serial, title, root);
    var tail := TailStart(l.fs);
    WriteCommon(l, rec, buffer, at);
    if l.fs.FAT32? {
      WriteFat32(l, root, rec, buffer, at);
    } else if SmallCount(l) == 0 {
      PutField(buffer, at, rec, 0, 32, 4, l.sectors);
    }
    WriteTail(l.fs, serial, title, rec, tail, buffer, at);
    PutZeros(buffer, at, rec, 0, tail + 26, 510);
    PutField(buffer, at, rec, 0, 510, 1, 0xaa);
    PutField(buffer, at, rec, 0, 511, 1, 0x55);
  }

  /** `read_sector_mbr`. */
  method WriteMbrRecord(l: Layout, serial: u32, buffer: array<byte>, at: nat)
    requires at + 512 <= buffer.Length
    modifies buffer
    ensures ShowsRecord(buffer, at, MbrRecord(l, serial), 0, 512)
    ensures forall b :: 0 <= b < buffer.Length && !(at <= b < at + 512) ==> buffer[b] == old(buffer[b])
  {
    ghost var rec := MbrRecord(l, serial);
    PutZeros(buffer, at, rec, 0, 0, 440);
    PutField(buffer, at, rec, 0, 440, 4, serial);
    PutField(buffer, at, rec, 0, 444, 2, 0);
    WritePartition(l, rec, buffer, at);
    PutZeros(buffer, at, rec, 0, 462, 510);
    PutField(buffer, at, rec, 0, 510, 1, 0x55);
    PutField(buffer, at, rec, 0, 511, 1, 0xaa);
  }

  /** The first partition record. */
  method WritePartition(l: Layout, ghost rec: seq<Cell>, buffer: array<byte>, at: nat)
    requires |rec| == 512 && at + 512 <= buffer.Length && ShowsRecord(buffer, at, rec, 0, 446)
    requires forall r {:trigger rec[r]} :: 446 <= r < 462 ==> rec[r] == Is(PartitionByte(l, r - 446))
    modifies buffer
    ensures ShowsRecord(buffer, at, rec, 0, 462)
    ensures forall b :: 0 <= b < buffer.Length && !(at + 446 <= b < at + 462) ==> buffer[b] == old(buffer[b])
  {
    PutField(buffer, at, rec, 0, 446, 1, 0x80);
    PutField(buffer, at, rec, 0, 447, 3, 0);
    PutField(buffer, at, rec, 0, 450, 1, PartitionType(l.fs) as nat);
    PutField(buffer, at, rec, 0, 451, 3, 0);
    PutField(buffer, at, rec, 0, 454, 4, l.mbrSectors);
    PutField(buffer, at, rec, 0, 458, 4, l.sectors);
  }
}
