/** Fixed-width unsigned integers and their little-endian byte encoding.

    The management protocol is little-endian throughout (it mirrors the
    kernel ABI); every integer field of a frame is written with
    `to_le_bytes` and read back with `from_le_bytes`. */
module Bytes {

  type byte = x: int | 0 <= x < 0x100
  type u16 = x: int | 0 <= x < 0x1_0000
  type u32 = x: int | 0 <= x < 0x1_0000_0000
  type u128 = x: int | 0 <= x < 0x1_0000_0000_0000_0000_0000_0000_0000_0000
  type bytes = seq<byte>

  /** 256 to the power n: one more than the largest value n bytes hold. */
  function Pow256(n: nat): (r: nat)
    ensures r >= 1
  {
    if n == 0 then 1 else 256 * Pow256(n - 1)
  }

  lemma {:induction false} Pow256Sum(a: nat, b: nat)
    ensures Pow256(a + b) == Pow256(a) * Pow256(b)
  {
    if a > 0 {
      Pow256Sum(a - 1, b);
      var p, q := Pow256(a - 1), Pow256(b);
      assert Pow256(a + b) == 256 * Pow256(a - 1 + b);
      assert 256 * (p * q) == (256 * p) * q;
    }
  }

  /** Euclidean division is unique: a quotient and a remainder in [0, d)
      that recombine to v are v / d and v % d. */
  lemma DivUnique(v: int, d: int, q: int, r: int)
    requires d > 0 && v == d * q + r && 0 <= r < d
    ensures v / d == q && v % d == r
  {
    var q', r' := v / d, v % d;
    assert d * (q - q') == r' - r;
    MulInWindow(d, q - q', r' - r);
  }

  /** A number and its remainder differ by a multiple of the divisor. */
  lemma ModDifference(v: int, d: int)
    requires d > 0
    ensures (v % d - v) % d == 0
  {
    var q := v / d;
    assert v % d - v == d * -q;
    DivUnique(v % d - v, d, -q, 0);
  }

  /** A multiple of d strictly between -d and d is zero. */
  lemma MulInWindow(d: int, x: int, y: int)
    requires d > 0 && d * x == y && -d < y < d
    ensures x == 0
  {
    assert x >= 1 ==> d * x >= d * 1;
    assert x <= -1 ==> d * x <= d * -1;
  }

  /** `to_le_bytes` for an integer `width` bytes wide. */
  function ToLE(v: nat, width: nat): (r: bytes)
    requires v < Pow256(width)
    ensures |r| == width
    ensures width > 0 ==> r[0] == v % 256
  {
    if width == 0 then [] else [v % 256] + ToLE(v / 256, width - 1)
  }

  /** `from_le_bytes`: the first byte is the least significant one. */
  function FromLE(s: bytes): (r: nat)
    ensures r < Pow256(|s|)
  {
    if |s| == 0 then 0
    else
      var hi := FromLE(s[1..]);
      assert hi <= Pow256(|s| - 1) - 1;
      assert 256 * hi <= 256 * Pow256(|s| - 1) - 256;
      s[0] + 256 * hi
  }

  /** Reading back what was written gives the original integer. */
  lemma {:induction false} FromToLE(v: nat, width: nat)
    requires v < Pow256(width)
    ensures FromLE(ToLE(v, width)) == v
  {
    if width > 0 {
      FromToLE(v / 256, width - 1);
      assert ToLE(v, width)[1..] == ToLE(v / 256, width - 1);
    }
  }

  /** Writing back what was read gives the original bytes: the encoding
      is a bijection between integers of a width and byte strings of that
      length. */
  lemma {:induction false} ToFromLE(s: bytes)
    ensures ToLE(FromLE(s), |s|) == s
  {
    if |s| > 0 {
      ToFromLE(s[1..]);
      var hi := FromLE(s[1..]);
      assert (s[0] + 256 * hi) % 256 == s[0];
      assert (s[0] + 256 * hi) / 256 == hi;
    }
  }

  /** Equal-width encodings are equal only for equal integers. */
  lemma ToLEInjective(a: nat, b: nat, width: nat)
    requires a < Pow256(width) && b < Pow256(width)
    requires ToLE(a, width) == ToLE(b, width)
    ensures a == b
  {
    FromToLE(a, width);
    FromToLE(b, width);
  }

  function U16LE(v: u16): (r: bytes)
    ensures |r| == 2
    ensures r == [v % 256, v / 256]
  {
    assert Pow256(2) == 0x1_0000;
    ToLE(v, 2)
  }

  function U32LE(v: u32): (r: bytes)
    ensures |r| == 4
    ensures FromLE(r) == v
  {
    assert Pow256(4) == 0x1_0000_0000;
    FromToLE(v, 4);
    ToLE(v, 4)
  }

  function U128LE(v: u128): (r: bytes)
    ensures |r| == 16
    ensures FromLE(r) == v
  {
    Pow256Sum(8, 8);
    assert Pow256(8) == 0x1_0000_0000_0000_0000;
    FromToLE(v, 16);
    ToLE(v, 16)
  }

  /** A byte string of `n` zeros (`[0; n]`). */
  function Zeros(n: nat): (r: bytes)
    ensures |r| == n
    ensures forall i :: 0 <= i < n ==> r[i] == 0
  {
    seq(n, _ => 0)
  }
}
