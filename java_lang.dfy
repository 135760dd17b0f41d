/** Java's fixed-width integer arithmetic, written out over Dafny's unbounded
    integers: 32- and 64-bit wrap-around, the truncating `%`, the arithmetic
    shift `>>` and masking with `& (2^k - 1)`. */
module JavaLang {

  const TWO_32: int := 0x1_0000_0000
  const TWO_64: int := 0x1_0000_0000_0000_0000
  const INT_MIN: int := -0x8000_0000
  const INT_MAX: int := 0x7FFF_FFFF
  const LONG_MIN: int := -0x8000_0000_0000_0000
  const LONG_MAX: int := 0x7FFF_FFFF_FFFF_FFFF

  /** A byte of a Java `byte[]`, seen unsigned as `Byte.toUnsignedInt` does. */
  type Byte = x: int | 0 <= x < 0x100

  /** The values of a Java `int`. */
  type Int32 = x: int | INT_MIN <= x <= INT_MAX

  /** The values of a Java `long`. */
  type Int64 = x: int | LONG_MIN <= x <= LONG_MAX

  function Pow2(k: nat): (r: nat)
    ensures r >= 1
  {
    if k == 0 then 1 else 2 * Pow2(k - 1)
  }

  lemma {:induction false} Pow2Add(a: nat, b: nat)
    ensures Pow2(a + b) == Pow2(a) * Pow2(b)
  {
    if a > 0 {
      Pow2Add(a - 1, b);
    }
  }

  /** The powers of two behind the masks and shifts of the protocol code. */
  lemma Pow2Values()
    ensures Pow2(4) == 0x10 && Pow2(8) == 0x100 && Pow2(12) == 0x1000
    ensures Pow2(20) == 0x10_0000 && Pow2(22) == 0x40_0000 && Pow2(42) == 0x400_0000_0000
    ensures Pow2(64) == TWO_64
  {
    Pow2Small();
    Pow2Large();
  }

  lemma Pow2Small()
    ensures Pow2(4) == 0x10 && Pow2(8) == 0x100 && Pow2(12) == 0x1000
  {
    assert Pow2(2) == 4 by { assert Pow2(1) == 2; }
    assert Pow2(4) == 0x10 by { Pow2Add(2, 2); }
    assert Pow2(8) == 0x100 by { Pow2Add(4, 4); }
    Pow2Add(8, 4);
  }

  lemma Pow2Large()
    ensures Pow2(20) == 0x10_0000 && Pow2(22) == 0x40_0000 && Pow2(42) == 0x400_0000_0000
    ensures Pow2(64) == TWO_64
  {
    Pow2Small();
    assert Pow2(2) == 4 by { assert Pow2(1) == 2; }
    assert Pow2(20) == 0x10_0000 by { Pow2Add(12, 8); }
    assert Pow2(22) == 0x40_0000 by { Pow2Add(20, 2); }
    assert Pow2(42) == 0x400_0000_0000 by { Pow2Add(20, 22); }
    Pow2Add(42, 22);
  }

  /** The `int` that Java's 32-bit arithmetic yields for the exact result `x`. */
  function Wrap32(x: int): (r: Int32)
    ensures (x - r) % TWO_32 == 0
    ensures INT_MIN <= x <= INT_MAX ==> r == x
  {
    var m := x % TWO_32;
    if m <= INT_MAX then m else m - TWO_32
  }

  /** Java's `int` arithmetic is arithmetic modulo 2^32: wrapping an
      intermediate result does not change the final one. */
  lemma Wrap32Congruent(x: int, y: int)
    requires (x - y) % TWO_32 == 0
    ensures Wrap32(x) == Wrap32(y)
  {
    var k := (x - y) / TWO_32;
    assert x == y + TWO_32 * k;
    assert x % TWO_32 == y % TWO_32;
  }

  /** An increment of a wrapped value is the wrapped increment. */
  lemma Wrap32Succ(x: int)
    ensures Wrap32(Wrap32(x) + 1) == Wrap32(x + 1)
  {
    Wrap32Congruent(Wrap32(x) + 1, x + 1);
  }

  /** The `long` that Java's 64-bit arithmetic yields for the exact result `x`. */
  function Wrap64(x: int): (r: Int64)
    ensures (x - r) % TWO_64 == 0
    ensures LONG_MIN <= x <= LONG_MAX ==> r == x
  {
    var m := x % TWO_64;
    if m <= LONG_MAX then m else m - TWO_64
  }

  /** Java's `a / b`: division truncated toward zero. */
  function Quot(a: int, b: int): int
    requires b != 0
  {
    if (a >= 0) == (b > 0) then Abs(a) / Abs(b) else -(Abs(a) / Abs(b))
  }

  /** Java's `a % b`: the remainder of division truncated toward zero, which
      takes the sign of the dividend (Dafny's own `%` never goes negative). */
  function Rem(a: int, b: int): (r: int)
    requires b != 0
    ensures a == b * Quot(a, b) + r
    ensures -(Abs(b) as int) < r < Abs(b)
    ensures a >= 0 ==> 0 <= r
    ensures a <= 0 ==> r <= 0
  {
    var m := Abs(a) % Abs(b);
    var q := Abs(a) / Abs(b);
    var r := if a >= 0 then m else -m;
    DivisionIdentity(a, b, q, m);
    r
  }

  lemma DivisionIdentity(a: int, b: int, q: int, m: int)
    requires b != 0 && q == Abs(a) / Abs(b) && m == Abs(a) % Abs(b)
    ensures a == b * Quot(a, b) + (if a >= 0 then m else -m)
  {
    var p := Abs(b) * q;
    assert Abs(a) == p + m;
    MulNeg(b, q);
    assert b * q == (if b > 0 then p else -p);
    assert b * Quot(a, b) == (if (a >= 0) == (b > 0) then b * q else -(b * q));
  }

  lemma MulNeg(x: int, y: int)
    ensures x * (-y) == -(x * y) && (-x) * y == -(x * y)
  {
  }

  function Abs(x: int): (r: nat)
    ensures r == x || r == -x
  {
    if x < 0 then -x else x
  }

  /** Java's arithmetic shift `x >> k` on a two's complement value: division by
      2^k rounded toward minus infinity. */
  function Shr(x: int, k: nat): (r: int)
    ensures Pow2(k) * r <= x < Pow2(k) * (r + 1)
  {
    x / Pow2(k)
  }

  /** Java's `x & (2^k - 1)` on a two's complement value: its low k bits. */
  function LowBits(x: int, k: nat): (r: nat)
    ensures r < Pow2(k)
    ensures x == Pow2(k) * Shr(x, k) + r
  {
    x % Pow2(k)
  }

  /** The destination after `System.arraycopy(data, 0, buffer, offset, data.length)`. */
  function Overwrite<T>(buffer: seq<T>, offset: nat, data: seq<T>): (r: seq<T>)
    requires offset + |data| <= |buffer|
    ensures |r| == |buffer|
    ensures forall k :: 0 <= k < |r| ==> r[k] == if offset <= k < offset + |data| then data[k - offset] else buffer[k]
  {
    buffer[..offset] + data + buffer[offset + |data|..]
  }

  /** `System.arraycopy(src, srcPos, dst, dstPos, len)` from a source that
      does not alias the destination. */
  method ArrayCopy<T>(src: seq<T>, srcPos: nat, dst: array<T>, dstPos: nat, len: nat)
    requires srcPos + len <= |src| && dstPos + len <= dst.Length
    modifies dst
    ensures dst[..] == Overwrite(old(dst[..]), dstPos, src[srcPos..srcPos + len])
  {
    forall k | 0 <= k < len {
      dst[dstPos + k] := src[srcPos + k];
    }
  }
}
