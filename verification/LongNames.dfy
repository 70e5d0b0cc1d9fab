/** The name fields of directory slots: the 11-byte short form, its checksum and the long-name slots
    (libvdf/read_dir.c, `fill_dirent`). */
module LongNames {
  import opened Bytes
  import opened Volume
  import opened Names

  // ---------------------------------------------------------------- the 11-byte field

  /** The index of the first dot, or the length of the name. */
  function FirstDot(s: Name): (r: nat)
    ensures r <= |s|
    ensures r < |s| ==> s[r] == DOT
    ensures forall k :: 0 <= k < r ==> s[k] != DOT
  {
    if s == [] || s[0] == DOT then 0 else 1 + FirstDot(s[1..])
  }

  /** Character `i` of the field: up to eight characters before the dot, then up to three behind it,
      both padded with spaces. A stem of more than eight characters loses its extension. */
  function FieldChar(short: Name, i: nat): byte {
    var dot := FirstDot(short);
    if i < 8 then (if i < dot then short[i] else SPACE)
    else if dot <= 8 && dot + 1 + (i - 8) < |short| then short[dot + 1 + (i - 8)]
    else SPACE
  }

  function NameField(short: Name): (r: Name)
    ensures |r| == 11
  {
    seq(11, i requires 0 <= i => FieldChar(short, i))
  }

  /** The first byte of a slot, which ends a directory if it is zero. */
  lemma FirstByteOfName(short: Name)
    requires NulFree(short)
    ensures NameField(short)[0] != 0
  {
  }

  function ChecksumStep(chk: byte, c: byte): byte {
    ((chk as int / 2 + chk as int % 2 * 128 + c as int) % 256) as byte
  }

  /** The rotate-and-add fold over the first `n` bytes of a name field. */
  function ChecksumOf(field: Name, n: nat): byte
    requires n <= |field|
  {
    if n == 0 then 0 else ChecksumStep(ChecksumOf(field, n - 1), field[n - 1])
  }

  method FoldChar(chk: byte, c: byte, ghost field: Name, ghost i: nat) returns (r: byte)
    requires i < |field| && chk == ChecksumOf(field, i) && c == field[i]
    ensures r == ChecksumOf(field, i + 1)
  {
    r := ChecksumStep(chk, c);
  }

  /** The scan that folds the checksum directly over the short name. */
  method ScanChecksum(short: Name) returns (chk: byte)
    ensures chk == ChecksumOf(NameField(short), 11)
  {
    ghost var field := NameField(short);
    var i, s := 0, 0;
    chk := 0;
    while s < |short| && short[s] != DOT && i < 8
      invariant i == s <= 8 && s <= FirstDot(short)
      invariant chk == ChecksumOf(field, i)
    {
      chk := FoldChar(chk, short[s], field, i);
      i, s := i + 1, s + 1;
    }
    while i < 8
      invariant s <= i <= 8 && (i < 8 ==> s == FirstDot(short))
      invariant chk == ChecksumOf(field, i)
    {
      chk := FoldChar(chk, SPACE, field, i);
      i := i + 1;
    }
    if s < |short| && short[s] == DOT {
      s := s + 1;
      while i < 11 && s < |short|
        invariant 8 <= i <= 11 && s == FirstDot(short) + 1 + (i - 8)
        invariant chk == ChecksumOf(field, i)
      {
        chk := FoldChar(chk, short[s], field, i);
        i, s := i + 1, s + 1;
      }
    }
    while i < 11
      invariant 8 <= i <= 11
      invariant i < 11 ==> FirstDot(short) > 8 || FirstDot(short) + 1 + (i - 8) >= |short|
      invariant chk == ChecksumOf(field, i)
    {
      chk := FoldChar(chk, SPACE, field, i);
      i := i + 1;
    }
  }

  /** The scan that writes the name field. */
  method ScanNameField(short: Name) returns (field: Name)
    ensures field == NameField(short)
  {
    field := [];
    var s := 0;
    while s < |short| && short[s] != DOT && |field| < 8
      invariant |field| == s <= 8 && s <= FirstDot(short)
      invariant forall j :: 0 <= j < |field| ==> field[j] == FieldChar(short, j)
    {
      field := field + [short[s]];
      s := s + 1;
    }
    while |field| < 8
      invariant s <= |field| <= 8 && (|field| < 8 ==> s == FirstDot(short))
      invariant forall j :: 0 <= j < |field| ==> field[j] == FieldChar(short, j)
    {
      field := field + [SPACE];
    }
    if s < |short| && short[s] == DOT {
      s := s + 1;
      while |field| < 11 && s < |short|
        invariant 8 <= |field| <= 11 && s == FirstDot(short) + 1 + (|field| - 8)
        invariant forall j :: 0 <= j < |field| ==> field[j] == FieldChar(short, j)
      {
        field := field + [short[s]];
        s := s + 1;
      }
    }
    while |field| < 11
      invariant 8 <= |field| <= 11
      invariant |field| < 11 ==> FirstDot(short) > 8 || FirstDot(short) + 1 + (|field| - 8) >= |short|
      invariant forall j :: 0 <= j < |field| ==> field[j] == FieldChar(short, j)
    {
      field := field + [SPACE];
    }
  }

  // ---------------------------------------------------------------- long-name slots

  const PER_SLOT: nat := 13

  /** How many long-name slots a name takes: `strlen(name) / 13 + 1`. */
  function LongCount(name: Name): nat {
    |name| / PER_SLOT + 1
  }

  /** A signed `char` stored in a 16-bit unit is sign-extended. */
  function Unit(c: byte): u16 {
    if c < 128 then c as u16 else 0xff00 + c as u16
  }

  function UnitAt(name: Name, p: nat): u16 {
    if p < |name| then Unit(name[p]) else 0
  }

  /** The characters of part `k` (counted from 0) of a name, padded with zeros. */
  function PartUnits(name: Name, k: nat): (r: seq<u16>)
    ensures |r| == PER_SLOT
  {
    seq(PER_SLOT, i requires 0 <= i => UnitAt(name, PER_SLOT * k + i))
  }

  /** `seq` truncated to a byte, with bit 6 set on the last part. */
  function SequenceByte(k: nat, count: nat): byte {
    var b := (k % 256) as byte;
    if k == count && b / 64 % 2 == 0 then b + 64 else b
  }

  /** The slot for part number `k`, counted from 1. */
  function LongSlotFor(name: Name, chk: byte, k: nat): Slot
    requires 0 < k
  {
    LongSlot(SequenceByte(k, LongCount(name)), chk, PartUnits(name, k - 1))
  }

  /** Collects one part as `fill_dirent` does: up to the terminating NUL, then zeros. */
  method CollectPart(name: Name, k: nat) returns (units: seq<u16>)
    requires NulFree(name) && PER_SLOT * k <= |name|
    ensures units == PartUnits(name, k)
  {
    units := [];
    var i := 0;
    while i < PER_SLOT && PER_SLOT * k + i < |name|
      invariant i == |units| <= PER_SLOT && PER_SLOT * k + i <= |name|
      invariant forall j :: 0 <= j < i ==> units[j] == UnitAt(name, PER_SLOT * k + j)
    {
      units := units + [Unit(name[PER_SLOT * k + i])];
      i := i + 1;
    }
    while i < PER_SLOT
      invariant i == |units| <= PER_SLOT
      invariant i < PER_SLOT ==> PER_SLOT * k + i >= |name|
      invariant forall j :: 0 <= j < i ==> units[j] == UnitAt(name, PER_SLOT * k + j)
    {
      units := units + [0];
      i := i + 1;
    }
  }

  // ---------------------------------------------------------------- reading a long name back

  /** A raw 32-byte slot read from a disk. */
  type RawSlot = s: seq<byte> | |s| == 32 witness seq(32, _ => 0)

  ghost predicate ShowsSlot(raw: RawSlot, s: Slot) {
    forall r :: 0 <= r < 32 ==> Shows(SlotCell(s, r), raw[r])
  }

  /** Where the format keeps character `i` of a long-name slot. */
  function UnitOffset(i: nat): nat {
    if i < 5 then 1 + 2 * i else if i < 11 then 4 + 2 * i else 6 + 2 * i
  }

  function RawUnit(raw: RawSlot, i: nat): u16
    requires i < PER_SLOT
  {
    FromLe16(raw[UnitOffset(i)], raw[UnitOffset(i) + 1])
  }

  function RawNumber(raw: RawSlot): nat {
    raw[0] as int % 64
  }

  function RawUnits(raw: RawSlot): (r: seq<u16>)
    ensures |r| == PER_SLOT
  {
    seq(PER_SLOT, i requires 0 <= i < PER_SLOT => RawUnit(raw, i))
  }

  /** The characters of the first slot numbered `m`. */
  function PartNumbered(raws: seq<RawSlot>, m: nat): (r: seq<u16>)
    ensures |r| <= PER_SLOT
  {
    if raws == [] then []
    else if RawNumber(raws[0]) == m then RawUnits(raws[0])
    else PartNumbered(raws[1..], m)
  }

  /** Parts 1..m in the order of their numbers. */
  function Ordered(raws: seq<RawSlot>, m: nat): (r: seq<u16>)
    ensures |r| <= PER_SLOT * m
  {
    if m == 0 then [] else Ordered(raws, m - 1) + PartNumbered(raws, m)
  }

  /** The characters up to the first zero. */
  function CutAtNul(units: seq<u16>): (r: seq<u16>)
    ensures |r| <= |units|
  {
    if units == [] || units[0] == 0 then [] else [units[0]] + CutAtNul(units[1..])
  }

  /** The first slot on disk carries the highest number; the name is read from part 1 on. */
  function DecodeLongName(raws: seq<RawSlot>): seq<u16> {
    if raws == [] then [] else CutAtNul(Ordered(raws, RawNumber(raws[0])))
  }

  /** A name as the 16-bit characters that a host expects: each byte is the character of that number. */
  function Wide(name: Name): (r: seq<u16>)
    ensures |r| == |name|
  {
    seq(|name|, i requires 0 <= i < |name| => name[i] as u16)
  }

  /** A name as the code stores it, sign-extended. */
  function Stored(name: Name): (r: seq<u16>)
    ensures |r| == |name|
  {
    seq(|name|, i requires 0 <= i < |name| => Unit(name[i]))
  }

  predicate Ascii(name: Name) {
    forall i :: 0 <= i < |name| ==> name[i] < 128
  }

  lemma StoredIsWide(name: Name)
    ensures Stored(name) == Wide(name) <==> Ascii(name)
  {
    if Stored(name) == Wide(name) {
      forall i | 0 <= i < |name|
        ensures name[i] < 128
      {
        assert Stored(name)[i] == Wide(name)[i];
      }
    }
  }

  lemma RawUnitsShown(raw: RawSlot, name: Name, chk: byte, k: nat)
    requires 0 < k && ShowsSlot(raw, LongSlotFor(name, chk, k))
    ensures RawUnits(raw) == PartUnits(name, k - 1)
    ensures raw[0] == SequenceByte(k, LongCount(name))
  {
    var s := LongSlotFor(name, chk, k);
    assert Shows(SlotCell(s, 0), raw[0]);
    forall i | 0 <= i < PER_SLOT
      ensures RawUnits(raw)[i] == s.units[i]
    {
      var o := UnitOffset(i);
      assert Shows(SlotCell(s, o), raw[o]);
      assert Shows(SlotCell(s, o + 1), raw[o + 1]);
      Le16RoundTrip(s.units[i]);
    }
  }

  ghost predicate PartAt(raws: seq<RawSlot>, name: Name, chk: byte, top: nat, e: int)
    requires 0 <= e < top == |raws|
  {
    ShowsSlot(raws[e], LongSlotFor(name, chk, top - e))
  }

  /** Parts `top` down to 1, as read from a disk. */
  ghost predicate ShowsParts(raws: seq<RawSlot>, name: Name, chk: byte, top: nat) {
    && |raws| == top
    && forall e {:trigger PartAt(raws, name, chk, top, e)} :: 0 <= e < top ==> PartAt(raws, name, chk, top, e)
  }

  lemma OtherParts(raws: seq<RawSlot>, name: Name, chk: byte, top: nat)
    requires 0 < top && ShowsParts(raws, name, chk, top)
    ensures ShowsParts(raws[1..], name, chk, top - 1)
  {
    forall e {:trigger PartAt(raws[1..], name, chk, top - 1, e)} | 0 <= e < top - 1
      ensures PartAt(raws[1..], name, chk, top - 1, e)
    {
      assert PartAt(raws, name, chk, top, e + 1);
    }
  }

  lemma FirstPart(raws: seq<RawSlot>, name: Name, chk: byte, top: nat)
    requires 0 < top && ShowsParts(raws, name, chk, top)
    ensures RawUnits(raws[0]) == PartUnits(name, top - 1)
    ensures raws[0][0] == SequenceByte(top, LongCount(name))
  {
    assert PartAt(raws, name, chk, top, 0);
    RawUnitsShown(raws[0], name, chk, top);
  }

  lemma FirstPartNumber(raws: seq<RawSlot>, name: Name, chk: byte, top: nat)
    requires 0 < top && ShowsParts(raws, name, chk, top)
    ensures RawNumber(raws[0]) == top % 64
  {
    FirstPart(raws, name, chk, top);
    SequenceNumber(top, LongCount(name));
  }

  lemma SequenceNumber(k: nat, count: nat)
    ensures SequenceByte(k, count) as int % 64 == k % 64
  {
  }

  lemma FirstPartUnits(raws: seq<RawSlot>, name: Name, chk: byte, top: nat)
    requires 0 < top && ShowsParts(raws, name, chk, top)
    ensures RawUnits(raws[0]) == PartUnits(name, top - 1)
  {
    FirstPart(raws, name, chk, top);
  }

  lemma {:induction false} FindPart(raws: seq<RawSlot>, name: Name, chk: byte, top: nat, m: nat)
    requires 0 < m <= top <= LongCount(name) < 64 && ShowsParts(raws, name, chk, top)
    ensures PartNumbered(raws, m) == PartUnits(name, m - 1)
  {
    FirstPartNumber(raws, name, chk, top);
    if m == top {
      FirstPartUnits(raws, name, chk, top);
    } else {
      OtherParts(raws, name, chk, top);
      FindPart(raws[1..], name, chk, top - 1, m);
    }
  }

  lemma {:induction false} OrderedUnits(raws: seq<RawSlot>, name: Name, chk: byte, m: nat)
    requires m <= LongCount(name) < 64 && ShowsParts(raws, name, chk, LongCount(name))
    ensures |Ordered(raws, m)| == PER_SLOT * m
    ensures forall p :: 0 <= p < PER_SLOT * m ==> Ordered(raws, m)[p] == UnitAt(name, p)
  {
    if m > 0 {
      OrderedUnits(raws, name, chk, m - 1);
      FindPart(raws, name, chk, LongCount(name), m);
    }
  }

  lemma {:induction false} CutGivesName(units: seq<u16>, name: Name)
    requires NulFree(name) && |name| < |units|
    requires forall p :: 0 <= p < |units| ==> units[p] == UnitAt(name, p)
    ensures CutAtNul(units) == Stored(name)
  {
    assert units[0] == UnitAt(name, 0);
    if name != [] {
      var rest := name[1..];
      forall p | 0 <= p < |units[1..]|
        ensures units[1..][p] == UnitAt(rest, p)
      {
        assert units[p + 1] == UnitAt(name, p + 1);
      }
      CutGivesName(units[1..], rest);
      assert Stored(name) == [Unit(name[0])] + Stored(rest);
    }
  }

  lemma ShortNameDecodes(name: Name, chk: byte, raws: seq<RawSlot>)
    requires NulFree(name) && ShowsParts(raws, name, chk, LongCount(name)) && LongCount(name) < 64
    requires RawNumber(raws[0]) == LongCount(name)
    ensures DecodeLongName(raws) == Stored(name)
  {
    var n := LongCount(name);
    OrderedUnits(raws, name, chk, n);
    CutGivesName(Ordered(raws, n), name);
  }

  lemma DecodedLength(raws: seq<RawSlot>, m: nat)
    requires raws != [] && m == RawNumber(raws[0])
    ensures |DecodeLongName(raws)| <= PER_SLOT * m
  {
    assert |Ordered(raws, m)| <= PER_SLOT * m;
  }

  /** What a host reads from the emitted slots: the sign-extended characters of names that need fewer than
      64 slots, because the number field has six bits, and never all of a longer name. */
  lemma DecodedIsStored(name: Name, chk: byte, raws: seq<RawSlot>)
    requires NulFree(name) && ShowsParts(raws, name, chk, LongCount(name))
    ensures |name| < 819 ==> DecodeLongName(raws) == Stored(name)
    ensures |name| >= 819 ==> |DecodeLongName(raws)| < |name|
  {
    var n := LongCount(name);
    FirstPartNumber(raws, name, chk, n);
    if n < 64 {
      ShortNameDecodes(name, chk, raws);
    } else {
      DecodedLength(raws, n % 64);
    }
  }

  /** Reading the emitted slots back gives the name exactly when it has fewer than 819 characters and all
      of them are ASCII: the code neither limits the length of names nor widens characters without their sign. */
  lemma LongNameRoundTrip(name: Name, chk: byte, raws: seq<RawSlot>)
    requires NulFree(name) && ShowsParts(raws, name, chk, LongCount(name))
    ensures DecodeLongName(raws) == Wide(name) <==> |name| < 819 && Ascii(name)
  {
    DecodedIsStored(name, chk, raws);
    StoredIsWide(name);
  }

  /** Every long-name slot of a file carries the checksum of the eleven bytes of its short slot. */
  lemma ChecksumAgrees(name: Name, short: Name, raw: RawSlot, shortRaw: RawSlot, e: nat, s: Slot)
    requires e < LongCount(name)
    requires ShowsSlot(raw, LongSlotFor(name, ChecksumOf(NameField(short), 11), LongCount(name) - e))
    requires s.ShortSlot? && s.name == NameField(short) && ShowsSlot(shortRaw, s)
    ensures raw[13] == ChecksumOf(shortRaw[..11], 11)
  {
    var chk := ChecksumOf(NameField(short), 11);
    var l := LongSlotFor(name, chk, LongCount(name) - e);
    assert Shows(SlotCell(l, 13), raw[13]);
    forall r | 0 <= r < 11
      ensures shortRaw[r] == s.name[r]
    {
      assert Shows(SlotCell(s, r), shortRaw[r]);
    }
    assert shortRaw[..11] == s.name;
  }
}
