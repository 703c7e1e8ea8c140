/**
 * Go's int64 and the three operators `abs64` is built from (api/translation.go:161-164):
 * the arithmetic shift `>>`, the bitwise exclusive or `^`, and wrap-around subtraction.
 * Values are unbounded integers restricted to the 64-bit two's complement range;
 * every operation states its wrap-around or saturation explicitly.
 */
module Int64 {
  const MinInt64: int := -0x8000_0000_0000_0000
  const MaxInt64: int := 0x7FFF_FFFF_FFFF_FFFF
  const TwoTo64: int := 0x1_0000_0000_0000_0000

  type int64 = n: int | MinInt64 <= n <= MaxInt64

  function Pow2(k: nat): (r: nat)
    ensures r >= 1
  {
    if k == 0 then 1 else 2 * Pow2(k - 1)
  }

  lemma {:induction false} Pow2Add(a: nat, b: nat)
    ensures Pow2(a + b) == Pow2(a) * Pow2(b)
  {
    if a > 0 { Pow2Add(a - 1, b); }
  }

  lemma Pow2Of64()
    ensures Pow2(64) == TwoTo64
  {
    Pow2Add(1, 1); Pow2Add(2, 2); Pow2Add(4, 4); Pow2Add(8, 8); Pow2Add(16, 16); Pow2Add(32, 32);
  }

  /** Truncation to 64 bits, as Go's int64 arithmetic wraps around. */
  function Wrap(x: int): (r: int64)
    ensures (x - r) % TwoTo64 == 0
    ensures MinInt64 <= x <= MaxInt64 ==> r == x
  {
    var m := x % TwoTo64;
    if m <= MaxInt64 then m else m - TwoTo64
  }

  function Distance(a: int, b: int): nat
  {
    if a <= b then b - a else a - b
  }

  /** Clamping to the int64 range: the int64 nearest to `x`. */
  function Saturate(x: int): (r: int64)
    ensures MinInt64 <= x <= MaxInt64 ==> r == x
    ensures forall y: int64 :: Distance(r, x) <= Distance(y, x)
  {
    if x < MinInt64 then MinInt64 else if x > MaxInt64 then MaxInt64 else x
  }

  /** The 64-bit pattern of `n`, read as an unsigned number. */
  function Unsigned(n: int64): (u: nat)
    ensures u < TwoTo64
    ensures (u - n) % TwoTo64 == 0
  {
    if n < 0 then n + TwoTo64 else n
  }

  /** The int64 whose bit pattern is `u`. */
  function Signed(u: nat): (n: int64)
    requires u < TwoTo64
    ensures Unsigned(n) == u
  {
    if u <= MaxInt64 then u else u - TwoTo64
  }

  /** Go's `n >> 63` on a signed operand: an arithmetic shift, which is floor division by 2^63. */
  function ShiftRight63(n: int64): (y: int64)
    ensures y == (if n < 0 then -1 else 0)
  {
    n / 0x8000_0000_0000_0000
  }

  /** The low `k` bits of the bitwise exclusive or of `a` and `b`. */
  function XorBits(a: nat, b: nat, k: nat): (r: nat)
    ensures r < Pow2(k)
  {
    if k == 0 then 0
    else 2 * XorBits(a / 2, b / 2, k - 1) + (if a % 2 == b % 2 then 0 else 1)
  }

  lemma {:induction false} XorBitsZero(a: nat, k: nat)
    requires a < Pow2(k)
    ensures XorBits(a, 0, k) == a
  {
    if k > 0 { XorBitsZero(a / 2, k - 1); }
  }

  /** Exclusive or with all ones is the complement. */
  lemma {:induction false} XorBitsOnes(a: nat, k: nat)
    requires a < Pow2(k)
    ensures XorBits(a, Pow2(k) - 1, k) == Pow2(k) - 1 - a
  {
    if k > 0 {
      assert (Pow2(k) - 1) / 2 == Pow2(k - 1) - 1;
      XorBitsOnes(a / 2, k - 1);
    }
  }

  /** Go's `a ^ b` on int64: exclusive or of the two's complement bit patterns. */
  function Xor(a: int64, b: int64): (r: int64)
    ensures b == 0 ==> r == a
    ensures b == -1 ==> r as int == -(a as int) - 1
  {
    Pow2Of64();
    XorBitsZero(Unsigned(a), 64);
    XorBitsOnes(Unsigned(a), 64);
    Signed(XorBits(Unsigned(a), Unsigned(b), 64))
  }

  /** Exclusive or with the sign mask `n >> 63`: `n` itself, or its ones' complement. */
  lemma XorSignMask(n: int64)
    ensures Xor(n, ShiftRight63(n)) as int == if n < 0 then -(n as int) - 1 else n as int
  {
  }

  /** `abs64`: exclusive or with the sign mask, then subtraction of the mask, wrapping around. */
  function Abs64(n: int64): (r: int64)
    ensures n >= 0 ==> r == n
    ensures MinInt64 < n < 0 ==> r == -n
    ensures n == MinInt64 ==> r == MinInt64
    ensures r < 0 <==> n == MinInt64
  {
    XorSignMask(n);
    var y := ShiftRight63(n);
    Wrap(Xor(n, y) - y)
  }

  /** Negation leaves `abs64` unchanged wherever negation does not overflow. */
  lemma Abs64Negate(n: int64)
    requires n != MinInt64
    ensures Abs64(-n) == Abs64(n)
  {
  }
}
