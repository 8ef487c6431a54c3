/**
 * Fixed-width unsigned arithmetic and the bit helpers of RingOA's utility
 * header: exponentiation with 64-bit wrap-around, reduction modulo 2^n by a
 * bit mask, most/least significant bits, sign extension of an n-bit view and
 * the [start, end) sequence builder.
 *
 * A C++ `uint64_t` is a natural number below 2^64; every place where the C++
 * arithmetic wraps is written out with `% TWO64`.
 */
module Bits {

  const TWO64: nat := 0x1_0000_0000_0000_0000
  const TWO63: nat := 0x8000_0000_0000_0000
  const TWO32: nat := 0x1_0000_0000
  const TWO31: nat := 0x8000_0000

  /** The values of a C++ `uint64_t`. */
  type u64 = x: nat | x < TWO64

  /** The values of a C++ `uint32_t`. */
  type u32 = x: nat | x < TWO32

  function Pow2(n: nat): (r: nat)
    ensures r >= 1
  {
    if n == 0 then 1 else 2 * Pow2(n - 1)
  }

  lemma DivNat(v: nat, p: nat)
    requires p > 0
    ensures v / p >= 0
  {
  }

  /** `v >> k` on naturals. */
  function Shr(v: nat, k: nat): nat
  {
    DivNat(v, Pow2(k));
    v / Pow2(k)
  }

  /** Bit `k` of `v`, counting from the least significant bit. */
  function BitOf(v: nat, k: nat): nat
  {
    Shr(v, k) % 2
  }

  /** The value of a `uint64_t` read as a two's-complement `int64_t`. */
  function ToInt64(u: u64): int
  {
    if u < TWO63 then u else u - TWO64
  }

  /** Bitwise AND of two naturals, bit by bit from the least significant end. */
  function And(a: nat, b: nat): nat
    decreases a
  {
    if a == 0 || b == 0 then 0 else 2 * And(a / 2, b / 2) + (a % 2) * (b % 2)
  }

  /** Bitwise OR of two naturals, bit by bit from the least significant end. */
  function Or(a: nat, b: nat): nat
    decreases a + b
  {
    if a == 0 then b
    else if b == 0 then a
    else 2 * Or(a / 2, b / 2) + (if a % 2 == 1 || b % 2 == 1 then 1 else 0)
  }

  // ---------------------------------------------------------------------------
  // Arithmetic facts used throughout the model
  // ---------------------------------------------------------------------------

  lemma {:induction false} Pow2Add(a: nat, b: nat)
    ensures Pow2(a + b) == Pow2(a) * Pow2(b)
  {
    if a > 0 {
      Pow2Add(a - 1, b);
      assert Pow2(a + b) == 2 * Pow2(a - 1 + b);
    }
  }

  lemma Pow2Constants()
    ensures Pow2(64) == TWO64 && Pow2(63) == TWO63 && Pow2(32) == 0x1_0000_0000
    ensures Pow2(16) == 0x1_0000 && Pow2(8) == 256
  {
    Pow2Of16();
    Pow2Add(16, 16);
    Pow2Add(32, 32);
    assert Pow2(64) == 2 * Pow2(63);
  }

  lemma Pow2Of16()
    ensures Pow2(16) == 0x1_0000 && Pow2(8) == 256
  {
    assert Pow2(4) == 16;
    Pow2Add(4, 4);
    Pow2Add(8, 8);
  }

  lemma {:induction false} Pow2Monotone(a: nat, b: nat)
    requires a <= b
    ensures Pow2(a) <= Pow2(b)
  {
    if a < b {
      Pow2Monotone(a, b - 1);
    }
  }

  /** Setting a bit that is clear in `a` (all of `a`'s bits below k+1 are zero) adds 2^k. */
  lemma {:induction false} OrFreshBit(a: nat, k: nat)
    requires a % Pow2(k + 1) == 0
    ensures Or(a, Pow2(k)) == a + Pow2(k)
    decreases k
  {
    var p := Pow2(k + 1);
    assert p == 2 * Pow2(k);
    if a == 0 {
    } else if k == 0 {
      assert a % 2 == 0;
      assert Or(a / 2, 0) == a / 2;
    } else {
      var h := Pow2(k - 1);
      assert Pow2(k) == 2 * h;
      var q := a / p;
      assert a == p * q;
      assert a / 2 == Pow2(k) * q && a % 2 == 0;
      DivModUnique(a / 2, Pow2(k), q, 0);
      OrFreshBit(a / 2, k - 1);
      assert (2 * h) / 2 == h && (2 * h) % 2 == 0;
    }
  }

  /** A product of naturals, with its sign stated. */
  function MulNat(a: nat, b: nat): (r: nat)
    ensures r == a * b
  {
    a * b
  }

  lemma MulAtLeast(d: int, k: int)
    requires d > 0 && k >= 1
    ensures d * k >= d
  {
  }

  lemma ModAtMost(v: nat, d: nat)
    requires d > 0
    ensures v % d <= v
  {
    assert v == d * (v / d) + v % d;
  }

  /** Euclidean division has a unique quotient and remainder. */
  lemma DivModUnique(v: int, d: int, q: int, r: int)
    requires d > 0 && 0 <= r < d && v == d * q + r
    ensures v % d == r && v / d == q
  {
    var q', r' := v / d, v % d;
    assert v == d * q' + r';
    assert d * (q - q') == r' - r;
    if q < q' { MulAtLeast(d, q' - q); }
    if q > q' { MulAtLeast(d, q - q'); }
  }

  /** Reducing modulo a multiple `d * m` and then modulo `d` is reducing modulo `d`. */
  lemma ModOfMultipleMod(v: int, d: nat, m: nat)
    requires d > 0 && m > 0
    ensures (v % (d * m)) % d == v % d
  {
    var q := v / (d * m);
    var r := v % (d * m);
    assert v == (d * m) * q + r;
    var q2 := r / d;
    var r2 := r % d;
    assert r == d * q2 + r2;
    assert v == d * (m * q + q2) + r2;
    DivModUnique(v, d, m * q + q2, r2);
  }

  /** Wrapping at 2^64 does not change a value modulo 2^n for n <= 64. */
  lemma WrapThenMod(v: int, n: nat)
    requires n <= 64
    ensures (v % TWO64) % Pow2(n) == v % Pow2(n)
  {
    Pow2Constants();
    Pow2Add(n, 64 - n);
    ModOfMultipleMod(v, Pow2(n), Pow2(64 - n));
  }

  lemma MulMod(a: int, b: int, m: nat)
    requires m > 0
    ensures (a * b) % m == ((a % m) * (b % m)) % m
  {
    var qa, ra := a / m, a % m;
    var qb, rb := b / m, b % m;
    assert a * b == m * (qa * m * qb + qa * rb + ra * qb) + ra * rb by {
      assert a == m * qa + ra;
      assert b == m * qb + rb;
    }
    var q2, r2 := (ra * rb) / m, (ra * rb) % m;
    assert a * b == m * (qa * m * qb + qa * rb + ra * qb + q2) + r2;
    DivModUnique(a * b, m, qa * m * qb + qa * rb + ra * qb + q2, r2);
  }

  lemma AddMod(a: int, b: int, m: nat)
    requires m > 0
    ensures (a + b) % m == ((a % m) + (b % m)) % m
  {
    var qa, ra := a / m, a % m;
    var qb, rb := b / m, b % m;
    var q2, r2 := (ra + rb) / m, (ra + rb) % m;
    assert a + b == m * (qa + qb + q2) + r2;
    DivModUnique(a + b, m, qa + qb + q2, r2);
  }

  /** `v mod 2m` in terms of `v / 2 mod m`: the first step of a bit-by-bit induction. */
  lemma ModDouble(v: nat, m: nat)
    requires m > 0
    ensures v % (2 * m) == 2 * ((v / 2) % m) + v % 2
  {
    var q := v / 2;
    assert v == 2 * q + v % 2;
    assert q == m * (q / m) + q % m;
    assert v == (2 * m) * (q / m) + (2 * (q % m) + v % 2);
    DivModUnique(v, 2 * m, q / m, 2 * (q % m) + v % 2);
  }

  lemma {:induction false} ShrStep(v: nat, k: nat)
    ensures Shr(v, k + 1) == Shr(v / 2, k)
  {
    Pow2Add(1, k);
    assert Pow2(k + 1) == 2 * Pow2(k);
    var q := v / 2;
    var p := Pow2(k);
    assert v == 2 * q + v % 2;
    assert q == p * (q / p) + q % p;
    assert v == (2 * p) * (q / p) + (2 * (q % p) + v % 2);
    DivModUnique(v, 2 * p, q / p, 2 * (q % p) + v % 2);
  }

  // ---------------------------------------------------------------------------
  // The bit mask identities behind Mod2N, GetLowerNBits, GetLSB and GetMSB
  // ---------------------------------------------------------------------------

  /** Masking with `2^n - 1` keeps exactly the value modulo 2^n. */
  lemma {:induction false} AndLowMask(v: nat, n: nat)
    ensures And(v, Pow2(n) - 1) == v % Pow2(n)
  {
    if n == 0 {
      assert Pow2(0) == 1;
    } else if v != 0 {
      var m := Pow2(n - 1);
      assert Pow2(n) == 2 * m;
      AndLowMask(v / 2, n - 1);
      AndMaskStep(v, m, Pow2(n));
    }
  }

  /** One bit of AndLowMask: the mask p - 1 = 2m - 1 keeps the lowest bit and masks the rest with m - 1. */
  lemma AndMaskStep(v: nat, m: nat, p: nat)
    requires v > 0 && m > 0 && p == 2 * m && And(v / 2, m - 1) == (v / 2) % m
    ensures And(v, p - 1) == v % p
  {
    var mask: nat := p - 1;
    var low := v % 2;
    var half := And(v / 2, m - 1);
    assert mask / 2 == m - 1 && mask % 2 == 1;
    assert And(v, mask) == 2 * half + low * 1;
    ModDouble(v, m);
  }

  /** The AND of two values never exceeds either of them. */
  lemma {:induction false} AndBound(a: nat, b: nat)
    ensures And(a, b) <= a && And(a, b) <= b
  {
    if a != 0 && b != 0 {
      AndBound(a / 2, b / 2);
      var x, y := a % 2, b % 2;
      assert x * y == if x == 1 && y == 1 then 1 else 0;
      assert a == 2 * (a / 2) + x && b == 2 * (b / 2) + y;
    }
  }

  // ---------------------------------------------------------------------------
  // RingOA/utils/utils.h
  // ---------------------------------------------------------------------------

  /** `base` raised to `exponent` over the unbounded integers. */
  function Power(base: nat, exponent: nat): nat
  {
    if exponent == 0 then 1 else base * Power(base, exponent - 1)
  }

  lemma {:induction false} PowerOfSquare(b: nat, k: nat)
    ensures Power(b * b, k) == Power(b, 2 * k)
  {
    if k > 0 {
      PowerOfSquare(b, k - 1);
      assert Power(b, 2 * k) == b * (b * Power(b, 2 * (k - 1)));
    }
  }

  lemma {:induction false} PowerMod(b: nat, e: nat, m: nat)
    requires m > 0
    ensures Power(b % m, e) % m == Power(b, e) % m
  {
    if e > 0 {
      PowerMod(b, e - 1, m);
      ModIdem(b, m);
      MulCongruent(b % m, b, Power(b % m, e - 1), Power(b, e - 1), m);
    }
  }

  /** One round of the squaring loop keeps `result * base^exponent` fixed modulo 2^64. */
  lemma PowStep(result: nat, b: nat, e: nat)
    requires e > 0
    ensures var result' := if e % 2 == 1 then (result * b) % TWO64 else result;
            (result' * Power((b * b) % TWO64, e / 2)) % TWO64 == (result * Power(b, e)) % TWO64
  {
    var k := e / 2;
    var sq, sqm := Power(b * b, k), Power((b * b) % TWO64, k);
    PowerOfSquare(b, k);
    PowerMod(b * b, k, TWO64);
    var pb := Power(b, e);
    if e % 2 == 1 {
      assert pb == b * sq;
      var rb := result * b;
      ModIdem(rb, TWO64);
      MulCongruent(rb % TWO64, rb, sqm, sq, TWO64);
      assert rb * sq == result * pb;
    } else {
      assert pb == sq;
      MulCongruent(result, result, sqm, sq, TWO64);
    }
  }

  /** Pow: exponentiation by squaring in `uint64_t`, so the result wraps modulo 2^64. */
  method Pow(base: u64, exponent: u64) returns (result: u64)
    ensures result == Power(base, exponent) % TWO64
  {
    result := 1;
    var b: u64 := base;
    var e: u64 := exponent;
    while e != 0
      invariant (result * Power(b, e)) % TWO64 == Power(base, exponent) % TWO64
      decreases e
    {
      PowStep(result, b, e);
      if e % 2 == 1 {
        result := (result * b) % TWO64;
      }
      e := e / 2;
      if e != 0 {
        b := (b * b) % TWO64;
      }
    }
  }

  /** Mod2N: keeps the lower `bitsize` bits; shifting a 64-bit one by 64 or more is undefined. */
  function Mod2N(value: int, bitsize: nat): (r: u64)
    requires bitsize < 64
    ensures r == value % Pow2(bitsize) && r < Pow2(bitsize)
  {
    var v: u64 := value % TWO64;
    AndLowMask(v, bitsize);
    AndBound(v, Pow2(bitsize) - 1);
    WrapThenMod(value, bitsize);
    And(v, Pow2(bitsize) - 1)
  }

  /** Wrapping at 2^32 does not change a value modulo 2^n for n <= 32. */
  lemma WrapThenMod32(v: int, n: nat)
    requires n <= 32
    ensures (v % TWO32) % Pow2(n) == v % Pow2(n)
  {
    Pow2Constants();
    Pow2Add(n, 32 - n);
    ModOfMultipleMod(v, Pow2(n), Pow2(32 - n));
  }

  /** The 32-bit Mod: a `uint32_t` value masked to its lower `bitsize` bits; `1U << 32` is undefined. */
  function Mod32(value: int, bitsize: nat): (r: u32)
    requires bitsize < 32
    ensures r == value % Pow2(bitsize) && r < Pow2(bitsize)
  {
    Pow2Constants();
    Pow2Monotone(bitsize, 32);
    var v: u32 := value % TWO32;
    AndLowMask(v, bitsize);
    AndBound(v, Pow2(bitsize) - 1);
    WrapThenMod32(value, bitsize);
    And(v, Pow2(bitsize) - 1)
  }

  function Sign(b: bool): (r: int)
    ensures r * r == 1
    ensures r < 0 <==> b
  {
    if b then -1 else 1
  }

  /** The number of bits needed to write `x` (`std::bit_width`). */
  function BitWidth(x: nat): nat
  {
    if x == 0 then 0 else 1 + BitWidth(x / 2)
  }

  lemma {:induction false} BitWidthBounds(x: nat)
    requires x > 0
    ensures Pow2(BitWidth(x) - 1) <= x < Pow2(BitWidth(x))
  {
    if x > 1 {
      BitWidthBounds(x / 2);
    }
  }

  lemma {:induction false} BitWidthAtMost(x: nat, n: nat)
    requires x < Pow2(n)
    ensures BitWidth(x) <= n
  {
    if x > 0 {
      BitWidthAtMost(x / 2, n - 1);
    }
  }

  /** floor(log2 x), with -1 for zero. */
  function Log2Floor(x: u64): (r: int)
    ensures x == 0 ==> r == -1
    ensures x > 0 ==> 0 <= r < 64 && Pow2(r) <= x < Pow2(r + 1)
  {
    if x == 0 then -1
    else
      BitWidthBounds(x);
      Pow2Constants();
      BitWidthAtMost(x, 64);
      BitWidth(x) - 1
  }

  function GetLSB(value: u64): (r: u64)
    ensures r == value % 2 && r == BitOf(value, 0)
  {
    AndLowMask(value, 1);
    And(value, 1)
  }

  /** The most significant bit of the `n`-bit view of `value`; bit 63 once `n` reaches 64. */
  function GetMSB(value: u64, n: nat): (r: u64)
    ensures n == 0 ==> r == 0
    ensures 0 < n < 64 ==> r == BitOf(value, n - 1)
    ensures n >= 64 ==> r == BitOf(value, 63)
  {
    if n == 0 then 0
    else
      var k: nat := if n >= 64 then 63 else n - 1;
      AndLowMask(Shr(value, k), 1);
      AndBound(Shr(value, k), 1);
      And(Shr(value, k), 1)
  }

  /** The lower `n` bits of `value`: the whole value once `n` reaches 64. */
  function GetLowerNBits(value: u64, n: nat): (r: u64)
    ensures r == value % Pow2(n)
  {
    if n >= 64 then
      Pow2Constants();
      Pow2Monotone(64, n);
      DivModUnique(value, Pow2(n), 0, value);
      value
    else
      AndLowMask(value, n);
      AndBound(value, Pow2(n) - 1);
      And(value, Pow2(n) - 1)
  }

  /**
   * The lower `n` bits of `value` as a two's-complement number. The sign
   * extension ORs `~mask` onto a value below 2^n; the two share no set bit, so
   * the OR is the sum.
   */
  function UnsignedToSignedNBits(value: u64, n: nat): (r: int)
    ensures n == 0 ==> r == 0
    ensures 0 < n < 64 ==> -(Pow2(n - 1) as int) <= r < Pow2(n - 1) && (r - value) % Pow2(n) == 0
    ensures 0 < n < 64 ==> (r < 0 <==> GetMSB(value, n) == 1)
    ensures n >= 64 ==> -(TWO63 as int) <= r < TWO63 && (r - value) % TWO64 == 0
  {
    if n == 0 then 0
    else if n >= 64 then
      assert ToInt64(value) - value == 0 || ToInt64(value) - value == -(TWO64 as int);
      ToInt64(value)
    else SignExtend(value, n)
  }

  /** The `0 < n < 64` case of UnsignedToSignedNBits: mask, then sign-extend. */
  function SignExtend(value: u64, n: nat): (r: int)
    requires 0 < n < 64
    ensures -(Pow2(n - 1) as int) <= r < Pow2(n - 1) && (r - value) % Pow2(n) == 0
    ensures r < 0 <==> GetMSB(value, n) == 1
  {
    var mask := Pow2(n) - 1;
    LowBits(value, n);
    var low: u64 := And(value, mask);
    if And(low, Pow2(n - 1)) != 0 then
      var extended: u64 := low + (TWO64 - 1 - mask);
      NegativeBranch(value, n, low);
      ToInt64(extended)
    else
      NonNegativeBranch(value, n, low);
      ToInt64(low)
  }

  /** The masked value and the sign-bit test of UnsignedToSignedNBits. */
  lemma LowBits(value: u64, n: nat)
    requires 0 < n < 64
    ensures And(value, Pow2(n) - 1) == value % Pow2(n) < Pow2(n) <= TWO63
    ensures var low := And(value, Pow2(n) - 1);
            (And(low, Pow2(n - 1)) != 0 <==> low >= Pow2(n - 1)) &&
            (low >= Pow2(n - 1) <==> GetMSB(value, n) == 1)
  {
    var p, h := Pow2(n), Pow2(n - 1);
    assert p == 2 * h;
    Pow2AtMost63(n);
    AndLowMask(value, n);
    var low := value % p;
    SignBitTest(low, n);
    LowKeepsBit(value, h, low, n - 1);
  }

  /** Powers of two up to 2^63 fit below the sign bit of a 64-bit word, inclusive. */
  lemma Pow2AtMost63(n: nat)
    requires n <= 63
    ensures Pow2(n) <= TWO63
  {
    Pow2Constants();
    Pow2Monotone(n, 63);
  }

  /** Reducing modulo 2h = 2^(k+1) keeps bit k. */
  lemma LowKeepsBit(value: nat, h: nat, low: nat, k: nat)
    requires h == Pow2(k) && low == value % (2 * h)
    ensures BitOf(low, k) == BitOf(value, k)
  {
    ModDivBit(value, h);
    ModIdem(value / h, 2);
  }

  lemma NegativeBranch(value: u64, n: nat, low: u64)
    requires 0 < n < 64 && low == value % Pow2(n) && Pow2(n - 1) <= low < Pow2(n) <= TWO63
    ensures low + (TWO64 - Pow2(n)) < TWO64
    ensures var r := ToInt64(low + (TWO64 - Pow2(n)));
            -(Pow2(n - 1) as int) <= r < 0 && (r - value) % Pow2(n) == 0
  {
    var p, h := Pow2(n), Pow2(n - 1);
    assert p == 2 * h;
    var x: u64 := low + (TWO64 - p);
    assert x >= TWO63;
    assert ToInt64(x) == low - p;
    assert value == p * (value / p) + low;
    DivModUnique(low - p - value, p, -(value / p) - 1, 0);
  }

  lemma NonNegativeBranch(value: u64, n: nat, low: u64)
    requires 0 < n < 64 && low == value % Pow2(n) && low < Pow2(n - 1) && Pow2(n) <= TWO63
    ensures var r := ToInt64(low);
            0 <= r < Pow2(n - 1) && (r - value) % Pow2(n) == 0
  {
    var p := Pow2(n);
    assert value == p * (value / p) + low;
    DivModUnique(low - value, p, -(value / p), 0);
  }

  /** Bit `k` survives reduction modulo 2^(k+1). */
  lemma ModDivBit(v: nat, h: nat)
    requires h > 0
    ensures (v % (2 * h)) / h == (v / h) % 2
  {
    var q, rem := v / (2 * h), v % (2 * h);
    assert v == (2 * h) * q + rem;
    var t := if rem < h then 0 else 1;
    DivModUnique(rem, h, t, rem - h * t);
    assert v == h * (2 * q + t) + (rem - h * t);
    DivModUnique(v, h, 2 * q + t, rem - h * t);
    DivModUnique(2 * q + t, 2, q, t);
  }

  /**
   * For a value below 2^n, ANDing with the sign bit 2^(n-1) is nonzero exactly
   * when the value is at least 2^(n-1), and exactly when bit n-1 is set.
   */
  lemma SignBitTest(low: nat, n: nat)
    requires 0 < n < 64 && low < Pow2(n)
    ensures And(low, Pow2(n - 1)) != 0 <==> low >= Pow2(n - 1)
    ensures low >= Pow2(n - 1) <==> BitOf(low, n - 1) == 1
  {
    AndSingleBit(low, n - 1);
    assert Pow2(n) == 2 * Pow2(n - 1);
    var p := Pow2(n - 1);
    if low >= p {
      DivModUnique(low, p, 1, low - p);
    } else {
      DivModUnique(low, p, 0, low);
    }
  }

  /** ANDing with a single power of two isolates that bit. */
  lemma {:induction false} AndSingleBit(v: nat, k: nat)
    ensures And(v, Pow2(k)) == BitOf(v, k) * Pow2(k)
  {
    if v == 0 {
      assert Shr(0, k) == 0;
    } else if k == 0 {
    } else {
      var h := Pow2(k - 1);
      assert Pow2(k) == 2 * h;
      AndSingleBit(v / 2, k - 1);
      ShrStep(v, k - 1);
      AndSingleStep(v, h, BitOf(v / 2, k - 1));
    }
  }

  /** One bit of AndSingleBit: ANDing with 2h is ANDing the halved value with h, shifted back. */
  lemma AndSingleStep(v: nat, h: nat, bit: nat)
    requires v > 0 && h > 0 && And(v / 2, h) == bit * h
    ensures And(v, 2 * h) == bit * (2 * h)
  {
    var inner := And(v / 2, h);
    assert (2 * h) / 2 == h && (2 * h) % 2 == 0;
    assert And(v, 2 * h) == 2 * inner;
    DoubleProduct(bit, h, inner);
  }

  /** Doubling a product doubles one factor. */
  lemma DoubleProduct(bit: nat, h: nat, inner: nat)
    requires inner == bit * h
    ensures 2 * inner == bit * (2 * h)
  {
  }

  /** CreateSequence: the values start, start + 1, ..., end - 1, or nothing when end <= start. */
  method CreateSequence(start: u64, end: u64) returns (v: seq<u64>)
    ensures end <= start ==> v == []
    ensures start < end ==> |v| == end - start
    ensures forall i :: 0 <= i < |v| ==> v[i] == start + i
  {
    if end <= start {
      return [];
    }
    v := [];
    var next: u64 := start;
    while next < end
      invariant start <= next <= end
      invariant |v| == next - start
      invariant forall i :: 0 <= i < |v| ==> v[i] == start + i
    {
      v := v + [next];
      next := next + 1;
    }
  }

  // ---------------------------------------------------------------------------
  // Congruences modulo m
  // ---------------------------------------------------------------------------

  lemma ModIdem(a: int, m: nat)
    requires m > 0
    ensures (a % m) % m == a % m
  {
    DivModUnique(a % m, m, 0, a % m);
  }

  /** Reducing one summand does not change a sum modulo m. */
  lemma ModSummand(a: int, b: int, m: nat)
    requires m > 0
    ensures (a + b % m) % m == (a + b) % m
  {
    ModIdem(b, m);
    AddMod(a, b % m, m);
    AddMod(a, b, m);
  }

  lemma Sum3Mod(a: int, b: int, c: int, m: nat)
    requires m > 0
    ensures (a % m + b % m + c % m) % m == (a + b + c) % m
  {
    var ra, rb, rc := a % m, b % m, c % m;
    assert (ra + rb + rc) % m == (ra + rb + c) % m by { ModSummand(ra + rb, c, m); }
    assert (ra + c + rb) % m == (ra + c + b) % m by { ModSummand(ra + c, b, m); }
    assert (b + c + ra) % m == (b + c + a) % m by { ModSummand(b + c, a, m); }
  }

  /** Congruent left operands give congruent sums. */
  lemma AddCongruent(a: int, a': int, b: int, m: nat)
    requires m > 0 && a % m == a' % m
    ensures (a + b) % m == (a' + b) % m
  {
    AddMod(a, b, m);
    AddMod(a', b, m);
  }

  lemma MulCongruent(a: int, a': int, b: int, b': int, m: nat)
    requires m > 0 && a % m == a' % m && b % m == b' % m
    ensures (a * b) % m == (a' * b') % m
  {
    MulMod(a, b, m);
    MulMod(a', b', m);
  }

  /** Sums of congruent operands are congruent. */
  lemma AddCongruent2(sx: int, x: int, sy: int, y: int, m: nat)
    requires m > 0 && sx % m == x % m && sy % m == y % m
    ensures (sx + sy) % m == (x + y) % m
  {
    AddCongruent(sx, x, sy, m);
    AddCongruent(sy, y, x, m);
  }

  lemma NegCongruent(a: int, b: int, m: nat)
    requires m > 0 && a % m == b % m
    ensures (-a) % m == (-b) % m
  {
    AddCongruent(a, b, -a - b, m);
  }

  /** Differences of congruent operands are congruent. */
  lemma SubCongruent2(sx: int, x: int, sy: int, y: int, m: nat)
    requires m > 0 && sx % m == x % m && sy % m == y % m
    ensures (sx - sy) % m == (x - y) % m
  {
    NegCongruent(sy, y, m);
    AddCongruent2(sx, x, -sy, -y, m);
  }

}
