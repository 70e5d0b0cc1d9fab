/** Bytes, little-endian words, 32-bit wrap-around and partially specified output bytes. */
module Bytes {

  newtype byte = x: int | 0 <= x < 256
  newtype u16 = x: int | 0 <= x < 0x1_0000
  type u32 = x: int | 0 <= x < 0x1_0000_0000

  const TWO32: int := 0x1_0000_0000

  /** The value a `uint32_t` variable holds after `x` is stored in it. */
  function Wrap32(x: int): u32 {
    x % TWO32
  }

  lemma Wrap32Id(x: int)
    requires 0 <= x < TWO32
    ensures Wrap32(x) == x
  {
  }

  /** Byte `t` of the little-endian encoding of `v`. */
  function LeByte(v: nat, t: nat): byte {
    match t
    case 0 => (v % 256) as byte
    case 1 => (v / 0x100 % 256) as byte
    case 2 => (v / 0x1_0000 % 256) as byte
    case 3 => (v / 0x100_0000 % 256) as byte
    case _ => 0
  }

  function FromLe16(b0: byte, b1: byte): u16 {
    b0 as u16 + 0x100 * b1 as u16
  }

  function FromLe32(b0: byte, b1: byte, b2: byte, b3: byte): u32 {
    b0 as int + 0x100 * b1 as int + 0x1_0000 * b2 as int + 0x100_0000 * b3 as int
  }

  lemma Le16RoundTrip(v: u16)
    ensures FromLe16(LeByte(v as int, 0), LeByte(v as int, 1)) == v
  {
  }

  lemma DivTwice(v: nat)
    ensures v / 0x1_0000 == v / 0x100 / 0x100
    ensures v / 0x100_0000 == v / 0x1_0000 / 0x100
  {
  }

  lemma Le32RoundTrip(v: u32)
    ensures FromLe32(LeByte(v, 0), LeByte(v, 1), LeByte(v, 2), LeByte(v, 3)) == v
  {
    DivTwice(v);
    var a := v / 0x100;
    var b := a / 0x100;
    var c := b / 0x100;
    assert LeByte(v, 3) as int == c;
    assert v == 0x100 * a + LeByte(v, 0) as int;
    assert a == 0x100 * b + LeByte(v, 1) as int;
    assert b == 0x100 * c + LeByte(v, 2) as int;
  }

  /** What an output byte must be: `Any` marks a byte the program leaves as it found it. */
  datatype Cell = Any | Is(value: byte)

  predicate Shows(c: Cell, b: byte) {
    c.Is? ==> c.value == b
  }

  /** A product of naturals is a natural. */
  function Times(a: nat, b: nat): nat {
    a * b
  }

  lemma MulSplit(a: int, b: int, m: int)
    ensures (a + b) * m == a * m + b * m
  {
  }

  lemma MulMono(a: int, b: int, m: int)
    requires a <= b && 0 <= m
    ensures a * m <= b * m
  {
  }

  function Min(a: nat, b: nat): nat {
    if a < b then a else b
  }

  /** The number of pieces of size `m` that hold `n`: division rounding up. */
  function CeilDiv(n: nat, m: nat): nat
    requires m > 0
  {
    if n == 0 then 0
    else if n <= m then 1
    else 1 + CeilDiv(n - m, m)
  }

  lemma {:induction false} CeilDivBounds(n: nat, m: nat)
    requires m > 0
    ensures n <= CeilDiv(n, m) * m < n + m
  {
    if n > m {
      CeilDivBounds(n - m, m);
      MulSplit(1, CeilDiv(n - m, m), m);
    }
  }

  /** The rounded-up division as the code computes it. */
  lemma CeilDivIsDivision(n: nat, m: nat)
    requires m > 0
    ensures (n + m - 1) / m == CeilDiv(n, m)
  {
    CeilDivBounds(n, m);
    QuotientUnique(n + m - 1, m, CeilDiv(n, m));
  }

  lemma QuotientUnique(a: nat, b: nat, q: nat)
    requires b > 0 && q * b <= a < q * b + b
    ensures a / b == q
  {
    var d := a / b;
    assert d * b <= a < d * b + b;
    if d < q {
      MulMono(d + 1, q, b);
    } else if q < d {
      MulMono(q + 1, d, b);
    }
  }
}
