/**
 * Java's fixed-width integers, modelled on unbounded ints.
 *
 * A Java long is the int it denotes, in [-2^63, 2^63); its bit pattern is
 * that value modulo 2^64.  The bitwise operators act on the pattern one bit
 * at a time (OrBits, AndBits), `<<` multiplies the pattern and drops the
 * bits above 64, `>>` is arithmetic (floor division by a power of two),
 * `~x` is -x-1, and a narrowing (int) cast keeps the low 32 bits as a
 * signed number.  Widening an int to a long keeps its value.
 */
module JavaWords {
  const TWO16: int := 0x1_0000
  const TWO31: int := 0x8000_0000
  const TWO32: int := 0x1_0000_0000
  const TWO48: int := 0x1_0000_0000_0000
  const TWO63: int := 0x8000_0000_0000_0000
  const TWO64: int := 0x1_0000_0000_0000_0000

  /** Java int and long values. */
  type Int = x: int | -TWO31 <= x < TWO31
  type Long = x: int | -TWO63 <= x < TWO63

  function Pow2(k: nat): (r: nat)
    ensures r >= 1
  {
    if k == 0 then 1 else 2 * Pow2(k - 1)
  }

  lemma {:induction false} Pow2Add(a: nat, b: nat)
    ensures Pow2(a + b) == Pow2(a) * Pow2(b)
  {
    if a > 0 {
      Pow2Add(a - 1, b);
      Twice(Pow2(b), Pow2(a - 1));
    }
  }

  lemma Pow2Values()
    ensures Pow2(16) == TWO16 && Pow2(32) == TWO32 && Pow2(48) == TWO48 && Pow2(64) == TWO64
  {
    Pow2Sixteen();
    Pow2Add(16, 16);
    Pow2Add(32, 16);
    Pow2Add(32, 32);
  }

  lemma Pow2Sixteen()
    ensures Pow2(16) == TWO16
  {
    assert Pow2(4) == 16 by {
      assert Pow2(1) == 2;
      assert Pow2(2) == 4;
      assert Pow2(3) == 8;
    }
    Pow2Add(4, 4);
    Pow2Add(8, 8);
  }

  // ---------------------------------------------------------------------
  // Division facts

  lemma MulAtLeast(a: int, p: int)
    requires a >= 1 && p > 0
    ensures a * p >= p
  {
  }

  lemma MulSign(a: int, p: int)
    requires p >= 1
    ensures a >= 0 ==> a <= a * p
    ensures a < 0 ==> a * p <= a
  {
  }

  lemma Twice(x: int, p: int)
    ensures 2 * (x * p) == x * (2 * p) == (2 * x) * p
  {
  }

  /** A number below the modulus is its own remainder. */
  lemma ModSmall(x: int, p: int)
    requires 0 <= x < p
    ensures x % p == x && x / p == 0
  {
  }

  /** Quotient and remainder are unique. */
  lemma ModUnique(x: int, p: int, d: int, m: int)
    requires p > 0 && x == d * p + m && 0 <= m < p
    ensures x / p == d && x % p == m
  {
    var q, r := x / p, x % p;
    assert x == q * p + r;
    if d > q {
      MulAtLeast(d - q, p);
    } else if d < q {
      MulAtLeast(q - d, p);
    }
  }

  lemma ModShift(x: int, k: int, p: int)
    requires p > 0
    ensures (x + k * p) % p == x % p
  {
    var q, r := x / p, x % p;
    assert x + k * p == (q + k) * p + r;
    ModUnique(x + k * p, p, q + k, r);
  }

  /** The remainder modulo 2^n, one low bit at a time. */
  lemma ModStep(a: nat, n: nat)
    requires n >= 1
    ensures a % Pow2(n) == a % 2 + 2 * ((a / 2) % Pow2(n - 1))
  {
    var p := Pow2(n - 1);
    var d, m := (a / 2) / p, (a / 2) % p;
    assert a / 2 == d * p + m;
    assert a == 2 * (a / 2) + a % 2;
    Twice(d, p);
    assert a == d * (2 * p) + (a % 2 + 2 * m);
    ModUnique(a, 2 * p, d, a % 2 + 2 * m);
  }

  lemma DivRange(x: int, p: int)
    requires p >= 1
    ensures x >= 0 ==> 0 <= x / p <= x
    ensures x < 0 ==> x <= x / p < 0
  {
    if x >= 0 {
      DivRangeNonneg(x, p);
    } else {
      DivRangeNeg(x, p);
    }
  }

  lemma DivRangeNonneg(x: int, p: int)
    requires p >= 1 && x >= 0
    ensures 0 <= x / p <= x
  {
    var q, r := x / p, x % p;
    assert x == q * p + r;
    MulSign(q, p);
  }

  lemma DivRangeNeg(x: int, p: int)
    requires p >= 1 && x < 0
    ensures x <= x / p < 0
  {
    var q, r := x / p, x % p;
    assert x == q * p + r;
    MulSign(q, p);
    if q < x {
      MulAtLeast(x - q, p);
      assert (x - q) * p == x * p - q * p;
      MulSign(x, p);
    }
  }

  // ---------------------------------------------------------------------
  // Bitwise operators on the low n bits of two naturals

  function OrBits(a: nat, b: nat, n: nat): nat
  {
    if n == 0 then 0
    else (if a % 2 == 1 || b % 2 == 1 then 1 else 0) + 2 * OrBits(a / 2, b / 2, n - 1)
  }

  function AndBits(a: nat, b: nat, n: nat): nat
  {
    if n == 0 then 0
    else (if a % 2 == 1 && b % 2 == 1 then 1 else 0) + 2 * AndBits(a / 2, b / 2, n - 1)
  }

  lemma {:induction false} BitsBound(a: nat, b: nat, n: nat)
    ensures OrBits(a, b, n) < Pow2(n) && AndBits(a, b, n) < Pow2(n)
  {
    if n > 0 {
      BitsBound(a / 2, b / 2, n - 1);
    }
  }

  lemma {:induction false} OrComm(a: nat, b: nat, n: nat)
    ensures OrBits(a, b, n) == OrBits(b, a, n)
  {
    if n > 0 {
      OrComm(a / 2, b / 2, n - 1);
    }
  }

  /** x | 0 keeps the low n bits of x. */
  lemma {:induction false} OrZero(a: nat, n: nat)
    ensures OrBits(a, 0, n) == a % Pow2(n)
  {
    if n > 0 {
      OrZero(a / 2, n - 1);
      ModStep(a, n);
    }
  }

  lemma {:induction false} AndZero(a: nat, n: nat)
    ensures AndBits(a, 0, n) == 0
  {
    if n > 0 {
      AndZero(a / 2, n - 1);
    }
  }

  lemma MaskHalves(m: nat)
    requires m >= 1
    ensures (Pow2(m) - 1) % 2 == 1 && (Pow2(m) - 1) / 2 == Pow2(m - 1) - 1
  {
    var half := Pow2(m - 1) - 1;
    assert Pow2(m) - 1 == 2 * half + 1;
    ModUnique(Pow2(m) - 1, 2, half, 1);
  }

  /** x & (2^m - 1) keeps the low m bits of x. */
  lemma {:induction false} AndLowMask(a: nat, m: nat, n: nat)
    requires m <= n
    ensures AndBits(a, Pow2(m) - 1, n) == a % Pow2(m)
  {
    if m == 0 {
      AndZero(a, n);
    } else {
      var mask, half := Pow2(m) - 1, Pow2(m - 1) - 1;
      MaskHalves(m);
      AndLowMask(a / 2, m - 1, n - 1);
      var r := AndBits(a / 2, half, n - 1);
      assert AndBits(a, mask, n) == (if a % 2 == 1 then 1 else 0) + 2 * r;
      assert (if a % 2 == 1 then 1 else 0) == a % 2;
      ModStep(a, m);
    }
  }

  /** Halving h * 2p + l, with l < 2p, halves the low part only. */
  lemma HalveSum(h: nat, l: nat, p: nat, P: nat)
    requires P == 2 * p && l < P
    ensures (h * P + l) / 2 == h * p + l / 2 && (h * P + l) % 2 == l % 2
  {
    Twice(h, p);
    ModUnique(h * P + l, 2, h * p + l / 2, l % 2);
  }

  lemma Regroup(hi: int, x: int, bit: int, p: int, P: int)
    requires P == 2 * p
    ensures bit + 2 * (hi * p + x) == hi * P + (bit + 2 * x)
  {
    Twice(hi, p);
  }

  /**
   * The bits below position j and the bits from j upwards are combined
   * independently: a = ah * 2^j + al and b = bh * 2^j + bl.
   */
  lemma AndSplitStep(a: nat, b: nat, al: nat, bl: nat, j: nat, n: nat, hi: nat, p: nat, P: nat)
    requires 0 < j <= n && P == 2 * p
    requires a % 2 == al % 2 && b % 2 == bl % 2
    requires AndBits(a / 2, b / 2, n - 1) == hi * p + AndBits(al / 2, bl / 2, j - 1)
    ensures AndBits(a, b, n) == hi * P + AndBits(al, bl, j)
  {
    var bit := if al % 2 == 1 && bl % 2 == 1 then 1 else 0;
    var lo := AndBits(al / 2, bl / 2, j - 1);
    assert AndBits(a, b, n) == bit + 2 * (hi * p + lo);
    assert AndBits(al, bl, j) == bit + 2 * lo;
    Regroup(hi, lo, bit, p, P);
  }

  lemma {:induction false} AndSplit(a: nat, b: nat, ah: nat, al: nat, bh: nat, bl: nat, j: nat, n: nat, P: nat)
    requires j <= n && P == Pow2(j) && al < P && bl < P
    requires a == ah * P + al && b == bh * P + bl
    ensures AndBits(a, b, n) == AndBits(ah, bh, n - j) * P + AndBits(al, bl, j)
  {
    if j > 0 {
      var p := Pow2(j - 1);
      HalveSum(ah, al, p, P);
      HalveSum(bh, bl, p, P);
      AndSplit(a / 2, b / 2, ah, al / 2, bh, bl / 2, j - 1, n - 1, p);
      AndSplitStep(a, b, al, bl, j, n, AndBits(ah, bh, n - j), p, P);
    } else {
      assert al == 0 && bl == 0 && a == ah && b == bh;
    }
  }

  lemma OrSplitStep(a: nat, b: nat, al: nat, bl: nat, j: nat, n: nat, hi: nat, p: nat, P: nat)
    requires 0 < j <= n && P == 2 * p
    requires a % 2 == al % 2 && b % 2 == bl % 2
    requires OrBits(a / 2, b / 2, n - 1) == hi * p + OrBits(al / 2, bl / 2, j - 1)
    ensures OrBits(a, b, n) == hi * P + OrBits(al, bl, j)
  {
    var bit := if al % 2 == 1 || bl % 2 == 1 then 1 else 0;
    var lo := OrBits(al / 2, bl / 2, j - 1);
    assert OrBits(a, b, n) == bit + 2 * (hi * p + lo);
    assert OrBits(al, bl, j) == bit + 2 * lo;
    Regroup(hi, lo, bit, p, P);
  }

  lemma {:induction false} OrSplit(a: nat, b: nat, ah: nat, al: nat, bh: nat, bl: nat, j: nat, n: nat, P: nat)
    requires j <= n && P == Pow2(j) && al < P && bl < P
    requires a == ah * P + al && b == bh * P + bl
    ensures OrBits(a, b, n) == OrBits(ah, bh, n - j) * P + OrBits(al, bl, j)
  {
    if j > 0 {
      var p := Pow2(j - 1);
      HalveSum(ah, al, p, P);
      HalveSum(bh, bl, p, P);
      OrSplit(a / 2, b / 2, ah, al / 2, bh, bl / 2, j - 1, n - 1, p);
      OrSplitStep(a, b, al, bl, j, n, OrBits(ah, bh, n - j), p, P);
    } else {
      assert al == 0 && bl == 0 && a == ah && b == bh;
    }
  }

  // ---------------------------------------------------------------------
  // Java long operators

  /** The 64-bit two's-complement pattern of a long. */
  function Bits(x: Long): (u: nat)
    ensures u < TWO64 && u % TWO64 == x % TWO64
  {
    if x >= 0 then x else x + TWO64
  }

  function FromBits(u: nat): (x: Long)
    requires u < TWO64
    ensures Bits(x) == u
  {
    if u < TWO63 then u else u - TWO64
  }

  /** x | y */
  function Or(x: Long, y: Long): Long
  {
    Pow2Values();
    BitsBound(Bits(x), Bits(y), 64);
    FromBits(OrBits(Bits(x), Bits(y), 64))
  }

  /** x & y */
  function And(x: Long, y: Long): Long
  {
    Pow2Values();
    BitsBound(Bits(x), Bits(y), 64);
    FromBits(AndBits(Bits(x), Bits(y), 64))
  }

  /** ~x */
  function Not(x: Long): Long
  {
    -1 - x as int
  }

  /** x << k */
  function Shl(x: Long, k: nat): Long
    requires k < 64
  {
    FromBits((Bits(x) * Pow2(k)) % TWO64)
  }

  /** x >> k, the arithmetic shift: floor division by 2^k. */
  function Sar(x: Long, k: nat): Long
    requires k < 64
  {
    DivRange(x, Pow2(k));
    x / Pow2(k)
  }

  /** (int) x: the low 32 bits read as a signed int. */
  function IntCast(x: Long): Int
  {
    var lo := x % TWO32;
    if lo < TWO31 then lo else lo - TWO32
  }

  lemma IntCastSmall(x: Long)
    requires -TWO31 <= x < TWO31
    ensures IntCast(x) == x
  {
    if x >= 0 {
      ModSmall(x, TWO32);
    } else {
      ModUnique(x, TWO32, -1, x + TWO32);
    }
  }

  /** Long.compare: the sign of the signed comparison of two longs. */
  function LongCompare(x: Long, y: Long): (r: int)
    ensures r < 0 <==> x < y
    ensures r == 0 <==> x == y
    ensures -1 <= r <= 1
  {
    if x < y then -1 else if x == y then 0 else 1
  }

  /** A left shift of a non-negative value that stays inside 64 bits is a multiplication. */
  lemma ShlSmall(x: Long, k: nat, P: nat)
    requires 0 <= x && k < 64 && P == Pow2(k) && x * P < TWO64
    ensures Bits(Shl(x, k)) == x * P
  {
    ModUnique(x * P, TWO64, 0, x * P);
  }
}
