/** Reading any run of bytes of the device (libvdf/read.c, `vdf_read_bytes`). */
module ByteReader {
  import opened Bytes
  import opened Volume
  import opened DriveReader

  lemma CeilDivParts(bps: nat, q: nat, r: nat)
    requires r < bps
    ensures CeilDiv(q * bps + r, bps) == if r == 0 then q else q + 1
  {
    var n, c := q * bps + r, CeilDiv(q * bps + r, bps);
    var want := if r == 0 then q else q + 1;
    CeilDivBounds(n, bps);
    MulSplit(q, 1, bps);
    if c < want {
      MulMono(c, want - 1, bps);
      MulSplit(want - 1, 1, bps);
    } else if want < c {
      MulMono(want + 1, c, bps);
      MulSplit(want, 1, bps);
    }
  }

  /** Copies part of one sector to the caller's buffer. */
  method CopyFrom(sbuff: array<byte>, from: nat, n: nat, ghost img: seq<Cell>, ghost base: nat, ghost bps: nat,
                  buffer: array<byte>, at: nat)
    requires sbuff != buffer && from + n <= sbuff.Length && at + n <= buffer.Length
    requires from + n <= bps && ShowsImage(sbuff, 0, img, base, bps)
    modifies buffer
    ensures ShowsImage(buffer, at, img, base + from, n)
    ensures forall b :: 0 <= b < buffer.Length && !(at <= b < at + n) ==> buffer[b] == old(buffer[b])
  {
    var i := 0;
    while i < n
      invariant 0 <= i <= n
      invariant ShowsImage(buffer, at, img, base + from, i)
      invariant forall b :: 0 <= b < buffer.Length && !(at <= b < at + i) ==> buffer[b] == old(buffer[b])
    {
      assert Shows(img[base + (from + i - 0)], sbuff[from + i]);
      buffer[at + i] := sbuff[from + i];
      i := i + 1;
    }
  }

  /** Bytes [from, from + n) of one sector; 0 bytes when the sector does not exist. */
  method PartialSector(d: Served, ghost v: Volume, ghost ps: seq<Payload>, ghost img: seq<Cell>,
                       sector: nat, from: nat, n: nat, buffer: array<byte>, at: nat) returns (r: int)
    requires Shown(d, v, ps, img) && sector <= TotalSectors(v.l) && from + n <= v.l.bps && at + n <= buffer.Length
    requires Begins(d, v, sector)
    modifies buffer
    ensures sector == TotalSectors(v.l) ==> r == 0
    ensures sector < TotalSectors(v.l) ==> r == Returned(Expected(d, v, sector, sector + 1), 1)
    ensures r == 1 ==> ShowsImage(buffer, at, img, sector * v.l.bps + from, n)
    ensures forall b :: 0 <= b < buffer.Length && !(at <= b < at + n) ==> buffer[b] == old(buffer[b])
  {
    NothingExpected(d, v, sector);
    var sbuff := new byte[d.k.l.bps];
    r := ReadSectors(d, v, ps, img, sector, 1, sbuff, 0);
    if r == 1 {
      CopyFrom(sbuff, from, n, img, sector * v.l.bps, v.l.bps, buffer, at);
    }
  }

  /** What a request for `cnt` bytes at offset `off` yields. */
  function ByteYield(l: Layout, off: nat, cnt: nat): nat
    requires off <= ImageBytes(l)
  {
    Min(cnt, ImageBytes(l) - off)
  }

  /** The last part of a request: `n` bytes, less than a sector, from the start of a sector on. */
  method ReadTail(d: Served, ghost v: Volume, ghost ps: seq<Payload>, ghost img: seq<Cell>,
                  soff: nat, n: nat, buffer: array<byte>, at: nat) returns (r: int)
    requires Shown(d, v, ps, img) && soff <= TotalSectors(v.l) && 0 < n < v.l.bps && at + n <= buffer.Length
    requires Begins(d, v, soff)
    modifies buffer
    ensures soff == TotalSectors(v.l) ==> r == 0
    ensures soff < TotalSectors(v.l) ==> r == Returned(Expected(d, v, soff, soff + 1), n)
    ensures r >= 0 ==> ShowsImage(buffer, at, img, soff * v.l.bps, r)
    ensures forall b :: 0 <= b < buffer.Length && !(at <= b < at + n) ==> buffer[b] == old(buffer[b])
  {
    MulMono(soff, TotalSectors(v.l), v.l.bps);
    var q := PartialSector(d, v, ps, img, soff, 0, n, buffer, at);
    r := if q == 1 then n else q;
  }

  /** How much an aligned request for `q` whole sectors and `rest` more bytes yields. */
  function AlignedBytes(l: Layout, soff: nat, q: nat, rest: nat): nat
    requires soff <= TotalSectors(l)
  {
    if soff + q < TotalSectors(l) then q * l.bps + rest else (TotalSectors(l) - soff) * l.bps
  }

  /** The sectors it touches. */
  function AlignedSectors(l: Layout, soff: nat, q: nat, rest: nat): nat
    requires soff <= TotalSectors(l)
  {
    if soff + q < TotalSectors(l) then (if rest == 0 then q else q + 1) else TotalSectors(l) - soff
  }

  lemma AlignedYield(l: Layout, soff: nat, q: nat, rest: nat)
    requires l.bps > 0 && soff <= TotalSectors(l) && rest < l.bps
    ensures soff * l.bps <= ImageBytes(l)
    ensures AlignedBytes(l, soff, q, rest) == ByteYield(l, soff * l.bps, q * l.bps + rest)
  {
    var t := TotalSectors(l);
    MulMono(soff, t, l.bps);
    MulSplit(soff, t - soff, l.bps);
    if soff + q < t {
      MulMono(q + 1, t - soff, l.bps);
      MulSplit(q, 1, l.bps);
    } else {
      MulMono(t - soff, q, l.bps);
    }
  }

  /** The calls for `q` whole sectors from `soff` on and for the tail behind them may start where they do. */
  ghost predicate PartsBegin(d: Served, v: Volume, soff: nat, q: nat, rest: nat) {
    (q > 0 ==> Begins(d, v, soff)) && (rest != 0 ==> Begins(d, v, soff + q))
  }

  lemma AlignedParts(d: Served, v: Volume, ps: seq<Payload>, soff: nat, q: nat, rest: nat)
    requires Serves(d, v, ps) && soff <= TotalSectors(v.l) && rest < v.l.bps
    ensures 0 <= q * v.l.bps && soff * v.l.bps + q * v.l.bps == (soff + q) * v.l.bps
    ensures
      var got, to := Yield(v.l, soff, q), soff + AlignedSectors(v.l, soff, q, rest);
      && (got < q || rest == 0 ==> to == soff + got && AlignedBytes(v.l, soff, q, rest) == got * v.l.bps)
      && (Expected(d, v, soff, to) ==
          if Expected(d, v, soff, soff + got).Complete? then Expected(d, v, soff + got, to)
          else Expected(d, v, soff, soff + got))
  {
    MulMono(0, q, v.l.bps);
    MulSplit(soff, q, v.l.bps);
    ExpectedJoin(d, v, ps, soff, soff + Yield(v.l, soff, q), soff + AlignedSectors(v.l, soff, q, rest));
  }

  /** Whole sectors first, then the tail, from the start of sector `soff` on. */
  method ReadAligned(d: Served, ghost v: Volume, ghost ps: seq<Payload>, ghost img: seq<Cell>,
                     soff: nat, q: nat, rest: nat, buffer: array<byte>, at: nat) returns (r: int)
    requires Shown(d, v, ps, img) && soff <= TotalSectors(v.l) && rest < v.l.bps
    requires at + q * v.l.bps + rest <= buffer.Length
    requires q < 0x8000_0000 && PartsBegin(d, v, soff, q, rest)
    modifies buffer
    ensures r ==
            Returned(Expected(d, v, soff, soff + AlignedSectors(v.l, soff, q, rest)), AlignedBytes(v.l, soff, q, rest))
    ensures r >= 0 ==> ShowsImage(buffer, at, img, soff * v.l.bps, r)
    ensures forall b :: 0 <= b < buffer.Length && !(at <= b < at + q * v.l.bps + rest) ==> buffer[b] == old(buffer[b])
  {
    var bps := d.k.l.bps;
    AlignedParts(d, v, ps, soff, q, rest);
    var got := ReadSectors(d, v, ps, img, soff, q, buffer, at);
    if got < 0 {
      return got;
    }
    r := got * bps;
    if got == q && rest != 0 {
      r := ReadBehindSectors(d, v, ps, img, soff * bps, r, soff + q, rest, buffer, at);
    }
  }

  /** The tail of a request, behind its first `done` bytes, which are already in the buffer. */
  method ReadBehindSectors(d: Served, ghost v: Volume, ghost ps: seq<Payload>, ghost img: seq<Cell>, ghost base: nat,
                           done: nat, next: nat, rest: nat, buffer: array<byte>, at: nat) returns (r: int)
    requires Shown(d, v, ps, img) && next <= TotalSectors(v.l) && 0 < rest < v.l.bps && base + done == next * v.l.bps
    requires at + done + rest <= buffer.Length && Begins(d, v, next)
    requires ShowsImage(buffer, at, img, base, done)
    modifies buffer
    ensures r == if next == TotalSectors(v.l) then done else Returned(Expected(d, v, next, next + 1), done + rest)
    ensures r >= 0 ==> ShowsImage(buffer, at, img, base, r)
    ensures forall b :: 0 <= b < buffer.Length && !(at + done <= b < at + done + rest) ==> buffer[b] == old(buffer[b])
  {
    r := ReadTail(d, v, ps, img, next, rest, buffer, at + done);
    if r >= 0 {
      assert ShowsImage(buffer, at, img, base, done);
      ShowsMoreImage(buffer, at, img, base, done, r);
      r := done + r;
    }
  }

  /** The first part of a request that starts inside a sector. */
  method ReadHead(d: Served, ghost v: Volume, ghost ps: seq<Payload>, ghost img: seq<Cell>,
                  soff: nat, from: nat, cnt: nat, buffer: array<byte>) returns (r: int)
    requires Shown(d, v, ps, img) && soff < TotalSectors(v.l) && 0 < from < v.l.bps && 0 < cnt <= buffer.Length
    requires Begins(d, v, soff)
    modifies buffer
    ensures r == Returned(Expected(d, v, soff, soff + 1), Min(v.l.bps - from, cnt))
    ensures r >= 0 ==> ShowsImage(buffer, 0, img, soff * v.l.bps + from, r)
    ensures forall b :: cnt <= b < buffer.Length ==> buffer[b] == old(buffer[b])
  {
    var want := Min(d.k.l.bps - from, cnt);
    var q := PartialSector(d, v, ps, img, soff, from, want, buffer, 0);
    r := if q == 1 then want else q;
  }

  /** A request split at the end of its first sector. */
  lemma HeadYield(l: Layout, soff: nat, from: nat, cnt: nat)
    requires 0 < from < l.bps && soff < TotalSectors(l) && cnt > l.bps - from
    ensures soff * l.bps + from <= ImageBytes(l) && (soff + 1) * l.bps <= ImageBytes(l)
    ensures ByteYield(l, soff * l.bps + from, cnt) ==
            l.bps - from + ByteYield(l, (soff + 1) * l.bps, cnt - (l.bps - from))
  {
    MulSplit(soff, 1, l.bps);
    MulMono(soff + 1, TotalSectors(l), l.bps);
  }

  /** The sectors that the bytes of an aligned request touch. */
  lemma TouchedAligned(l: Layout, soff: nat, q: nat, rest: nat)
    requires l.bps > 0 && soff <= TotalSectors(l) && rest < l.bps
    ensures CeilDiv(soff * l.bps + AlignedBytes(l, soff, q, rest), l.bps) == soff + AlignedSectors(l, soff, q, rest)
  {
    var t := TotalSectors(l);
    if soff + q < t {
      MulSplit(soff, q, l.bps);
      CeilDivParts(l.bps, soff + q, rest);
    } else {
      MulSplit(soff, t - soff, l.bps);
      CeilDivParts(l.bps, t, 0);
    }
  }

  /** What follows the first `head` bytes of a request, which begin at byte `base` of the device. */
  method ReadBehind(d: Served, ghost v: Volume, ghost ps: seq<Payload>, ghost img: seq<Cell>, ghost base: nat,
                    head: nat, next: nat, q: nat, rest: nat, buffer: array<byte>) returns (r: int)
    requires Shown(d, v, ps, img) && next <= TotalSectors(v.l) && base + head == next * v.l.bps && rest < v.l.bps
    requires q < 0x8000_0000 && PartsBegin(d, v, next, q, rest)
    requires head + q * v.l.bps + rest <= buffer.Length
    requires ShowsImage(buffer, 0, img, base, head)
    modifies buffer
    ensures r == Returned(Expected(d, v, next, next + AlignedSectors(v.l, next, q, rest)),
                          head + AlignedBytes(v.l, next, q, rest))
    ensures r >= 0 ==> ShowsImage(buffer, 0, img, base, r)
    ensures forall b :: head + q * v.l.bps + rest <= b < buffer.Length ==> buffer[b] == old(buffer[b])
  {
    MulMono(0, q, v.l.bps);
    r := ReadAligned(d, v, ps, img, next, q, rest, buffer, head);
    if r >= 0 {
      assert ShowsImage(buffer, 0, img, base, head);
      ShowsMoreImage(buffer, 0, img, base, head, r);
      r := head + r;
    }
  }

  lemma NextSector(bps: nat, soff: nat, from: nat, q: nat)
    requires from < bps
    ensures soff * bps + from + (bps - from) == (soff + 1) * bps && 0 <= q * bps
  {
    MulSplit(soff, 1, bps);
    MulMono(0, q, bps);
  }

  lemma DivParts(n: nat, m: nat)
    requires m > 0
    ensures n == n / m * m + n % m
  {
  }

  /** A request inside one sector. */
  lemma ShortYield(l: Layout, soff: nat, from: nat, cnt: nat)
    requires soff < TotalSectors(l) && 0 < from < l.bps && 0 < cnt <= l.bps - from
    ensures soff * l.bps + from <= ImageBytes(l)
    ensures ByteYield(l, soff * l.bps + from, cnt) == cnt
    ensures CeilDiv(soff * l.bps + from + cnt, l.bps) == soff + 1
  {
    MulSplit(soff, 1, l.bps);
    MulMono(soff + 1, TotalSectors(l), l.bps);
    if cnt == l.bps - from {
      CeilDivParts(l.bps, soff + 1, 0);
    } else {
      CeilDivParts(l.bps, soff, from + cnt);
    }
  }

  /** A request that starts inside sector `soff` and goes on for `q` sectors and `rest` bytes behind it. */
  lemma LongYield(l: Layout, soff: nat, from: nat, q: nat, rest: nat)
    requires soff < TotalSectors(l) && 0 < from < l.bps && rest < l.bps && q * l.bps + rest > 0
    ensures soff * l.bps + from <= ImageBytes(l)
    ensures
      var n := l.bps - from + AlignedBytes(l, soff + 1, q, rest);
      && ByteYield(l, soff * l.bps + from, l.bps - from + (q * l.bps + rest)) == n
      && CeilDiv(soff * l.bps + from + n, l.bps) == soff + 1 + AlignedSectors(l, soff + 1, q, rest)
  {
    MulSplit(soff, 1, l.bps);
    HeadYield(l, soff, from, l.bps - from + (q * l.bps + rest));
    AlignedYield(l, soff + 1, q, rest);
    TouchedAligned(l, soff + 1, q, rest);
  }

  lemma LongParts(d: Served, v: Volume, ps: seq<Payload>, soff: nat, to: nat)
    requires Serves(d, v, ps) && soff < to
    ensures Expected(d, v, soff, to) ==
            if Expected(d, v, soff, soff + 1).Complete? then Expected(d, v, soff + 1, to)
            else Expected(d, v, soff, soff + 1)
  {
    ExpectedJoin(d, v, ps, soff, soff + 1, to);
  }

  /** A request for the last `head` bytes of sector `soff`, the first of which is byte `base` of the device, for `q`
      sectors and for `rest` bytes behind them. */
  method ReadLong(d: Served, ghost v: Volume, ghost ps: seq<Payload>, ghost img: seq<Cell>, ghost base: nat,
                  soff: nat, head: nat, q: nat, rest: nat, buffer: array<byte>) returns (r: int)
    requires Shown(d, v, ps, img) && soff < TotalSectors(v.l) && 0 < head < v.l.bps && rest < v.l.bps
    requires base + head == (soff + 1) * v.l.bps && base == soff * v.l.bps + (v.l.bps - head)
    requires 0 <= q * v.l.bps && head + q * v.l.bps + rest <= buffer.Length
    requires q < 0x8000_0000 && Begins(d, v, soff) && PartsBegin(d, v, soff + 1, q, rest)
    modifies buffer
    ensures r == Returned(Expected(d, v, soff, soff + 1 + AlignedSectors(v.l, soff + 1, q, rest)),
                          head + AlignedBytes(v.l, soff + 1, q, rest))
    ensures r >= 0 ==> ShowsImage(buffer, 0, img, base, r)
    ensures forall b :: head + q * v.l.bps + rest <= b < buffer.Length ==> buffer[b] == old(buffer[b])
  {
    LongParts(d, v, ps, soff, soff + 1 + AlignedSectors(v.l, soff + 1, q, rest));
    r := ReadHead(d, v, ps, img, soff, d.k.l.bps - head, head, buffer);
    if r >= 0 {
      r := ReadBehind(d, v, ps, img, base, head, soff + 1, q, rest, buffer);
    }
  }

  /** What a request for `cnt` bytes from byte `off` on, in sector `soff`, returns. */
  ghost function ByteOutcome(d: Served, v: Volume, soff: nat, off: nat, cnt: nat): int
    requires v.l.bps > 0 && off <= ImageBytes(v.l)
  {
    var n := ByteYield(v.l, off, cnt);
    Returned(Expected(d, v, soff, CeilDiv(off + n, v.l.bps)), n)
  }

  lemma LongOutcome(d: Served, v: Volume, soff: nat, from: nat, q: nat, rest: nat, off: nat, cnt: nat)
    requires soff < TotalSectors(v.l) && 0 < from < v.l.bps && rest < v.l.bps && q * v.l.bps + rest > 0
    requires off == soff * v.l.bps + from && cnt == v.l.bps - from + (q * v.l.bps + rest)
    ensures off + (v.l.bps - from) == (soff + 1) * v.l.bps && 0 <= q * v.l.bps
    ensures off <= ImageBytes(v.l)
    ensures ByteOutcome(d, v, soff, off, cnt) ==
            Returned(Expected(d, v, soff, soff + 1 + AlignedSectors(v.l, soff + 1, q, rest)),
                     v.l.bps - from + AlignedBytes(v.l, soff + 1, q, rest))
  {
    LongYield(v.l, soff, from, q, rest);
    NextSector(v.l.bps, soff, from, q);
  }

  /** `n` bytes are `q` sectors and `rest` more bytes. */
  predicate Splits(n: nat, q: nat, rest: nat, bps: nat) {
    rest < bps && n == q * bps + rest
  }

  /** Of `n` bytes from the start of sector `soff` on, the whole sectors, whose number fits a signed `int`, and
      the tail may be read where they start. */
  ghost predicate AlignedBegins(d: Served, v: Volume, soff: nat, n: nat) {
    forall q: nat, rest: nat {:trigger Splits(n, q, rest, v.l.bps)} ::
      Splits(n, q, rest, v.l.bps) ==> q < 0x8000_0000 && PartsBegin(d, v, soff, q, rest)
  }

  /** The calls that a request for `cnt` bytes from byte `from` of sector `soff` on is made of may start where
      they do: up to three, for the rest of a sector, for whole sectors and for the tail. */
  ghost predicate BytesBegin(d: Served, v: Volume, soff: nat, from: nat, cnt: nat) {
    if from == 0 then AlignedBegins(d, v, soff, cnt)
    else Begins(d, v, soff) && (cnt > v.l.bps - from >= 0 ==> AlignedBegins(d, v, soff + 1, cnt - (v.l.bps - from)))
  }

  /** The same for a request from byte `off` of the device on. */
  ghost predicate RequestBegins(d: Served, v: Volume, off: nat, cnt: nat) {
    forall soff: nat, from: nat {:trigger Splits(off, soff, from, v.l.bps)} ::
      Splits(off, soff, from, v.l.bps) && cnt > 0 ==> BytesBegin(d, v, soff, from, cnt)
  }

  /** A request inside sector `soff`. */
  method ReadWithin(d: Served, ghost v: Volume, ghost ps: seq<Payload>, ghost img: seq<Cell>, ghost off: nat,
                    soff: nat, from: nat, cnt: nat, buffer: array<byte>) returns (r: int)
    requires Shown(d, v, ps, img) && soff < TotalSectors(v.l) && 0 < from < v.l.bps && off == soff * v.l.bps + from
    requires 0 < cnt <= buffer.Length && cnt <= v.l.bps - from && Begins(d, v, soff)
    modifies buffer
    ensures off <= ImageBytes(v.l) && r == ByteOutcome(d, v, soff, off, cnt)
    ensures r >= 0 ==> ShowsImage(buffer, 0, img, off, r)
    ensures forall b :: cnt <= b < buffer.Length ==> buffer[b] == old(buffer[b])
  {
    ShortYield(v.l, soff, from, cnt);
    r := ReadHead(d, v, ps, img, soff, from, cnt, buffer);
  }

  /** A request that goes on behind sector `soff`. */
  method ReadAcross(d: Served, ghost v: Volume, ghost ps: seq<Payload>, ghost img: seq<Cell>, ghost off: nat,
                    soff: nat, from: nat, cnt: nat, buffer: array<byte>) returns (r: int)
    requires Shown(d, v, ps, img) && soff < TotalSectors(v.l) && 0 < from < v.l.bps && off == soff * v.l.bps + from
    requires v.l.bps - from < cnt <= buffer.Length
    requires Begins(d, v, soff) && AlignedBegins(d, v, soff + 1, cnt - (v.l.bps - from))
    modifies buffer
    ensures off <= ImageBytes(v.l) && r == ByteOutcome(d, v, soff, off, cnt)
    ensures r >= 0 ==> ShowsImage(buffer, 0, img, off, r)
    ensures forall b :: cnt <= b < buffer.Length ==> buffer[b] == old(buffer[b])
  {
    var head := d.k.l.bps - from;
    var q, rest := SplitOffset(cnt - head, d.k.l.bps);
    LongOutcome(d, v, soff, from, q, rest, off, cnt);
    r := ReadLong(d, v, ps, img, off, soff, head, q, rest, buffer);
  }

  /** A request that starts at byte `from` of sector `soff`. */
  method ReadAt(d: Served, ghost v: Volume, ghost ps: seq<Payload>, ghost img: seq<Cell>, ghost off: nat,
                soff: nat, from: nat, cnt: nat, buffer: array<byte>) returns (r: int)
    requires Shown(d, v, ps, img) && soff < TotalSectors(v.l) && 0 < from < v.l.bps && off == soff * v.l.bps + from
    requires 0 < cnt <= buffer.Length && BytesBegin(d, v, soff, from, cnt)
    modifies buffer
    ensures off <= ImageBytes(v.l) && r == ByteOutcome(d, v, soff, off, cnt)
    ensures r >= 0 ==> ShowsImage(buffer, 0, img, off, r)
    ensures forall b :: cnt <= b < buffer.Length ==> buffer[b] == old(buffer[b])
  {
    if cnt <= d.k.l.bps - from {
      r := ReadWithin(d, v, ps, img, off, soff, from, cnt, buffer);
    } else {
      r := ReadAcross(d, v, ps, img, off, soff, from, cnt, buffer);
    }
  }

  lemma AlignedOutcome(d: Served, v: Volume, soff: nat, q: nat, rest: nat)
    requires v.l.bps > 0 && soff <= TotalSectors(v.l) && rest < v.l.bps
    ensures soff * v.l.bps <= ImageBytes(v.l)
    ensures ByteOutcome(d, v, soff, soff * v.l.bps, q * v.l.bps + rest) ==
            Returned(Expected(d, v, soff, soff + AlignedSectors(v.l, soff, q, rest)), AlignedBytes(v.l, soff, q, rest))
  {
    AlignedYield(v.l, soff, q, rest);
    TouchedAligned(v.l, soff, q, rest);
  }

  /** A request that starts at a sector boundary. */
  method ReadFrom(d: Served, ghost v: Volume, ghost ps: seq<Payload>, ghost img: seq<Cell>,
                  soff: nat, cnt: nat, buffer: array<byte>) returns (r: int)
    requires Shown(d, v, ps, img) && soff <= TotalSectors(v.l) && cnt <= buffer.Length
    requires AlignedBegins(d, v, soff, cnt)
    modifies buffer
    ensures soff * v.l.bps <= ImageBytes(v.l) && r == ByteOutcome(d, v, soff, soff * v.l.bps, cnt)
    ensures r >= 0 ==> ShowsImage(buffer, 0, img, soff * v.l.bps, r)
    ensures forall b :: cnt <= b < buffer.Length ==> buffer[b] == old(buffer[b])
  {
    var bps := d.k.l.bps;
    var q, rest := SplitOffset(cnt, bps);
    AlignedOutcome(d, v, soff, q, rest);
    r := ReadAligned(d, v, ps, img, soff, q, rest, buffer, 0);
  }

  /** The same for a request whose first sector is not given. */
  ghost function RequestOutcome(d: Served, v: Volume, off: nat, cnt: nat): int
    requires v.l.bps > 0 && off <= ImageBytes(v.l)
  {
    if cnt == 0 then 0 else ByteOutcome(d, v, off / v.l.bps, off, cnt)
  }

  /** `vdf_read_bytes`: exactly the requested bytes that exist, whatever the alignment of either end,
      unless a sector they touch needs an unreadable file or leads behind the range table. */
  method ReadBytes(d: Served, ghost v: Volume, ghost ps: seq<Payload>, ghost img: seq<Cell>,
                   off: nat, cnt: nat, buffer: array<byte>) returns (r: int)
    requires Shown(d, v, ps, img) && off <= ImageBytes(v.l) && cnt <= buffer.Length
    requires RequestBegins(d, v, off, cnt)
    modifies buffer
    ensures r == RequestOutcome(d, v, off, cnt)
    ensures r >= 0 ==> ShowsImage(buffer, 0, img, off, r)
    ensures forall b :: cnt <= b < buffer.Length ==> buffer[b] == old(buffer[b])
  {
    if cnt == 0 {
      return 0;
    }
    var soff, from := SplitOffset(off, d.k.l.bps);
    r := ReadPlaced(d, v, ps, img, soff, from, off, cnt, buffer);
  }

  method SplitOffset(off: nat, bps: nat) returns (soff: nat, from: nat)
    requires bps > 0
    ensures soff == off / bps && Splits(off, soff, from, bps)
  {
    soff, from := off / bps, off % bps;
    DivParts(off, bps);
  }

  /** A request whose first byte is byte `from` of sector `soff`. */
  method ReadPlaced(d: Served, ghost v: Volume, ghost ps: seq<Payload>, ghost img: seq<Cell>,
                    soff: nat, from: nat, ghost off: nat, cnt: nat, buffer: array<byte>) returns (r: int)
    requires Shown(d, v, ps, img) && off == soff * v.l.bps + from && from < v.l.bps && off <= ImageBytes(v.l)
    requires 0 < cnt <= buffer.Length && BytesBegin(d, v, soff, from, cnt)
    modifies buffer
    ensures r == ByteOutcome(d, v, soff, off, cnt)
    ensures r >= 0 ==> ShowsImage(buffer, 0, img, off, r)
    ensures forall b :: cnt <= b < buffer.Length ==> buffer[b] == old(buffer[b])
  {
    InsideDevice(v.l, soff, from);
    if from != 0 {
      r := ReadAt(d, v, ps, img, off, soff, from, cnt, buffer);
    } else {
      r := ReadFrom(d, v, ps, img, soff, cnt, buffer);
    }
  }

  lemma InsideDevice(l: Layout, soff: nat, from: nat)
    requires from < l.bps && soff * l.bps + from <= ImageBytes(l)
    ensures soff <= TotalSectors(l) && (from > 0 ==> soff < TotalSectors(l))
  {
    var t := TotalSectors(l);
    if soff > t {
      MulMono(t + 1, soff, l.bps);
      MulSplit(t, 1, l.bps);
    }
  }

  // ---------------------------------------------------------------- two reads instead of one

  lemma TwoParts(d: Served, v: Volume, ps: seq<Payload>, sector: nat, a: nat, b: nat)
    requires Serves(d, v, ps) && sector <= TotalSectors(v.l)
    ensures sector + Yield(v.l, sector, a) <= TotalSectors(v.l)
    ensures
      var got := Yield(v.l, sector, a);
      var more := Yield(v.l, sector + got, b);
      && Yield(v.l, sector, a + b) == got + more
      && Expected(d, v, sector, sector + got + more) ==
         if Expected(d, v, sector, sector + got).Complete? then Expected(d, v, sector + got, sector + got + more)
         else Expected(d, v, sector, sector + got)
  {
    var got := Yield(v.l, sector, a);
    ExpectedJoin(d, v, ps, sector, sector + got, sector + got + Yield(v.l, sector + got, b));
  }

  /** Reading `a` sectors and then `b` more behind them is reading `a + b` sectors at once: the contract
      is that of one call of `ReadSectors`. */
  method ReadInTwo(d: Served, ghost v: Volume, ghost ps: seq<Payload>, ghost img: seq<Cell>,
                   sector: nat, a: nat, b: nat, buffer: array<byte>) returns (r: int)
    requires Shown(d, v, ps, img) && sector <= TotalSectors(v.l) && (a + b) * v.l.bps <= buffer.Length
    requires a + b < 0x8000_0000 && Begins(d, v, sector) && Begins(d, v, sector + Yield(v.l, sector, a))
    modifies buffer
    ensures r == Returned(Expected(d, v, sector, sector + Yield(v.l, sector, a + b)), Yield(v.l, sector, a + b))
    ensures r >= 0 ==> ShowsImage(buffer, 0, img, sector * v.l.bps, r * v.l.bps)
  {
    TwoParts(d, v, ps, sector, a, b);
    MulMono(a, a + b, v.l.bps);
    Room(0, Yield(v.l, sector, a), b, a + b, v.l.bps);
    r := ReadSectors(d, v, ps, img, sector, a, buffer, 0);
    if r >= 0 {
      r := ReadMore(d, v, ps, img, sector, r, b, buffer);
    }
  }

  lemma FilledBehind(buffer: array<byte>, l: Layout, img: seq<Cell>, sector: nat, got: nat, more: nat, at: nat)
    requires at == got * l.bps && Filled(buffer, 0, l, img, sector, got)
    requires ShowsImage(buffer, at, img, (sector + got) * l.bps, more * l.bps)
    ensures Filled(buffer, 0, l, img, sector, got + more)
  {
    FilledMore(buffer, 0, l, img, sector, got, more);
  }

  /** The second of two reads, behind `got` sectors already in the buffer. */
  method ReadMore(d: Served, ghost v: Volume, ghost ps: seq<Payload>, ghost img: seq<Cell>,
                  sector: nat, got: nat, b: nat, buffer: array<byte>) returns (r: int)
    requires Shown(d, v, ps, img) && sector + got <= TotalSectors(v.l) && got * v.l.bps + b * v.l.bps <= buffer.Length
    requires b < 0x8000_0000 && Begins(d, v, sector + got)
    requires Filled(buffer, 0, v.l, img, sector, got)
    modifies buffer
    ensures
      var n := Yield(v.l, sector + got, b);
      r == Returned(Expected(d, v, sector + got, sector + got + n), got + n)
    ensures r >= 0 ==> Filled(buffer, 0, v.l, img, sector, r)
  {
    var at := got * d.k.l.bps;
    r := ReadSectors(d, v, ps, img, sector + got, b, buffer, at);
    if r >= 0 {
      assert Filled(buffer, 0, v.l, img, sector, got);
      FilledBehind(buffer, v.l, img, sector, got, r, at);
      r := got + r;
    }
  }
}
