/**
 * Integer arithmetic behind the quadkey codec: powers of two, single bits
 * of two's-complement integers, setting one bit, and the two machine
 * integer conversions the codec performs (`as i64` on a float, and reading
 * a 32-bit pattern as an `i32`).
 */
module Bits {

  /** 2^k, the value of `1 << k` while it fits the integer type. */
  function Pow2(k: nat): (r: nat)
    ensures r >= 1
  {
    if k == 0 then 1 else 2 * Pow2(k - 1)
  }

  lemma {:induction false} Pow2Monotone(a: nat, b: nat)
    requires a <= b
    ensures Pow2(a) <= Pow2(b)
  {
    if a < b {
      Pow2Monotone(a, b - 1);
    }
  }

  lemma Pow2Constants()
    ensures Pow2(31) == 0x8000_0000
    ensures Pow2(32) == 0x1_0000_0000
  {
    assert Pow2(4) == 16;
    Pow2Add(4, 4);
    Pow2Add(8, 8);
    Pow2Add(16, 15);
    Pow2Add(16, 16);
  }

  lemma {:induction false} Pow2Add(a: nat, b: nat)
    ensures Pow2(a + b) == Pow2(a) * Pow2(b)
  {
    if b > 0 {
      Pow2Add(a, b - 1);
      assert Pow2(a + b) == 2 * Pow2(a + b - 1);
    }
  }

  /**
   * Bit k of v in two's complement: v shifted right arithmetically k times
   * (Dafny's division by 2 rounds towards minus infinity, as an arithmetic
   * shift does), then its lowest bit. For v in the range of i64 and k < 64
   * this is 1 exactly when `v & (1 << k) != 0`.
   */
  function Bit(v: int, k: nat): (b: nat)
    ensures b <= 1
    decreases k
  {
    if k == 0 then v % 2 else Bit(v / 2, k - 1)
  }

  /** Adding a multiple of 2^n leaves bits 0 .. n-1 alone. */
  lemma {:induction false} BitShift(v: int, c: int, n: nat, k: nat)
    requires k < n
    ensures Bit(v + c * Pow2(n), k) == Bit(v, k)
    decreases k
  {
    var m := c * Pow2(n - 1);
    assert c * Pow2(n) == 2 * m;
    if k > 0 {
      assert (v + 2 * m) / 2 == v / 2 + m;
      BitShift(v / 2, c, n - 1, k - 1);
    }
  }

  /** Bits below n depend only on v modulo 2^n. */
  lemma LowBits(v: int, n: nat, k: nat)
    requires k < n
    ensures Bit(v % Pow2(n), k) == Bit(v, k)
  {
    var q, r := v / Pow2(n), v % Pow2(n);
    assert r + q * Pow2(n) == v;
    BitShift(r, q, n, k);
  }

  /** A multiple of 2^n has its bits below n clear. */
  lemma BitOfMultiple(m: int, n: nat, k: nat)
    requires k < n
    ensures Bit(m * Pow2(n), k) == 0
  {
    BitShift(0, m, n, k);
    BitOfZero(k);
  }

  lemma {:induction false} BitOfZero(k: nat)
    ensures Bit(0, k) == 0
  {
    if k > 0 {
      BitOfZero(k - 1);
    }
  }

  /**
   * `v | (1 << k)` for a non-negative bit pattern v: bit k is set and every
   * other bit is that of v.
   */
  function SetBit(v: nat, k: nat): (r: nat)
    ensures forall j: nat {:trigger Bit(r, j)} :: Bit(r, j) == (if j == k then 1 else Bit(v, j))
  {
    if Bit(v, k) == 1 then v
    else
      AddBit(v, k);
      v + Pow2(k)
  }

  /** Adding 2^k to a value whose bit k is clear sets that bit alone. */
  lemma AddBit(v: nat, k: nat)
    requires Bit(v, k) == 0
    ensures forall j: nat :: Bit(v + Pow2(k), j) == (if j == k then 1 else Bit(v, j))
  {
    forall j: nat
      ensures Bit(v + Pow2(k), j) == (if j == k then 1 else Bit(v, j))
    {
      AddBitAt(v, k, j);
    }
  }

  lemma {:induction false} AddBitAt(v: nat, k: nat, j: nat)
    requires Bit(v, k) == 0
    ensures Bit(v + Pow2(k), j) == (if j == k then 1 else Bit(v, j))
    decreases k
  {
    if k == 0 {
      assert v % 2 == 0;
      if j > 0 {
        assert (v + 1) / 2 == v / 2;
      }
    } else {
      var h := Pow2(k - 1);
      assert Pow2(k) == 2 * h;
      assert (v + 2 * h) / 2 == v / 2 + h;
      assert (v + 2 * h) % 2 == v % 2;
      if j > 0 {
        AddBitAt(v / 2, k - 1, j - 1);
      }
    }
  }

  const I64_MIN: int := -0x8000_0000_0000_0000
  const I64_MAX: int := 0x7fff_ffff_ffff_ffff

  /**
   * `f as i64` for a float f that is already an integer: values beyond the
   * range of i64 saturate at its ends.
   */
  function SaturatingCastI64(v: int): (r: int)
    ensures I64_MIN <= r <= I64_MAX
    ensures I64_MIN <= v <= I64_MAX ==> r == v
    ensures v > I64_MAX ==> r == I64_MAX
    ensures v < I64_MIN ==> r == I64_MIN
  {
    if v < I64_MIN then I64_MIN else if v > I64_MAX then I64_MAX else v
  }

  /**
   * The i32 whose 32-bit two's-complement pattern is u: u itself when the
   * sign bit is clear, u - 2^32 when it is set.
   */
  function SignedI32(u: nat): (r: int)
    requires u < 0x1_0000_0000
    ensures -0x8000_0000 <= r < 0x8000_0000
    ensures (u - r) % 0x1_0000_0000 == 0
  {
    if u < 0x8000_0000 then u else u - 0x1_0000_0000
  }
}
