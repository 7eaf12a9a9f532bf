/** Fixed-width unsigned values of the C source and their little-endian layout in memory.
    Shifts and masks of unsigned values are written as division and remainder. */
module Bytes {

  type Byte = x: int | 0 <= x < 0x100
  type U16 = x: int | 0 <= x < 0x1_0000
  type U32 = x: int | 0 <= x < 0x1_0000_0000

  /** Wrap-around of 32-bit unsigned arithmetic. */
  function Wrap32(x: int): U32 {
    x % 0x1_0000_0000
  }

  /** The four bytes of a uint32_t as the AVR stores them. */
  function Le32(x: U32): (b: seq<Byte>)
    ensures |b| == 4
  {
    [x % 0x100, x / 0x100 % 0x100, x / 0x1_0000 % 0x100, x / 0x100_0000]
  }

  function FromLe32(b: seq<Byte>): U32
    requires |b| == 4
  {
    b[0] as int + 0x100 * b[1] as int + 0x1_0000 * b[2] as int + 0x100_0000 * b[3] as int
  }

  function Le16(x: U16): (b: seq<Byte>)
    ensures |b| == 2
  {
    [x % 0x100, x / 0x100]
  }

  function FromLe16(b: seq<Byte>): U16
    requires |b| == 2
  {
    b[0] as int + 0x100 * b[1] as int
  }

  lemma Le32RoundTrip(x: U32, b: seq<Byte>)
    requires |b| == 4
    ensures FromLe32(Le32(x)) == x
    ensures Le32(FromLe32(b)) == b
  {
    Le32Digits(x);
    FromLe32Digits(b);
    hide FromLe32;
  }

  lemma Le32Digits(x: U32)
    ensures FromLe32(Le32(x)) == x
  {
    var y, z := x / 0x100, x / 0x1_0000;
    assert x == 0x100 * y + x % 0x100 && y == 0x100 * z + y % 0x100 && z == 0x100 * (x / 0x100_0000) + z % 0x100;
  }

  lemma FromLe32Digits(b: seq<Byte>)
    requires |b| == 4
    ensures var y := FromLe32(b);
            y % 0x100 == b[0] && y / 0x100 % 0x100 == b[1] && y / 0x1_0000 % 0x100 == b[2] && y / 0x100_0000 == b[3]
  {
    var y := FromLe32(b);
    assert y / 0x100 == b[1] as int + 0x100 * b[2] as int + 0x1_0000 * b[3] as int;
    assert y / 0x1_0000 == b[2] as int + 0x100 * b[3] as int;
    assert y / 0x100_0000 == b[3];
  }

  // ---- products and quotients of two variables ----

  lemma {:induction false} MulMonotone(i: nat, j: nat, k: nat)
    requires i <= j
    ensures i * k <= j * k
    decreases j - i
  {
    if i < j {
      MulMonotone(i, j - 1, k);
      assert j * k == (j - 1) * k + k;
    }
  }

  lemma SameBlock(base: nat, k: nat, i: nat, j: nat, a: nat)
    requires base + i * k <= a < base + i * k + k
    requires base + j * k <= a < base + j * k + k
    ensures i == j
  {
    assert (i + 1) * k == i * k + k && (j + 1) * k == j * k + k;
    if i < j {
      MulMonotone(i + 1, j, k);
    } else if j < i {
      MulMonotone(j + 1, i, k);
    }
  }

  lemma DivIs(x: nat, d: nat, q: nat)
    requires q * d <= x < q * d + d
    ensures x / d == q
  {
    var e := x / d;
    assert 0 + e * d <= x < 0 + e * d + d;
    SameBlock(0, d, e, q, x);
  }

  lemma AddedMultiple(a: nat, d: nat, m: nat)
    requires 0 < d
    ensures (a * d + m) / d == a + m / d
  {
    var q := m / d;
    assert q * d <= m < q * d + d;
    assert (a + q) * d == a * d + q * d;
    DivIs(a * d + m, d, a + q);
  }
}
