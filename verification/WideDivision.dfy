/**
 64-bit division from a 32-bit divide instruction (lib/arithmetic.c).

 C's uint32_t and uint64_t are integers with their ranges and their wrap-around
 written out.
 */
module WideDivision {
  import opened Integers

  const B32: int := 0x1_0000_0000
  const B64: int := 0x1_0000_0000_0000_0000

  type U32 = x: int | 0 <= x < 0x1_0000_0000
  type U64 = x: int | 0 <= x < 0x1_0000_0000_0000_0000
  type I64 = x: int | -0x8000_0000_0000_0000 <= x < 0x8000_0000_0000_0000

  const INT64_MIN: I64 := -0x8000_0000_0000_0000

  function Wrap64(x: int): U64 { x % B64 }

  /** x << k and x >> k on uint64_t. */
  function Shl64(x: U64, k: nat): U64 { Wrap64(x * Pow2(k)) }

  function Shr(x: nat, k: nat): nat {
    DivAtLeast(x, Pow2(k), 0);
    x / Pow2(k)
  }

  lemma Pow2Values()
    ensures Pow2(0) == 1 && Pow2(1) == 2 && Pow2(2) == 4 && Pow2(4) == 16 && Pow2(8) == 256 && Pow2(16) == 0x1_0000
    ensures Pow2(31) == 0x8000_0000 && Pow2(32) == B32 && Pow2(64) == B64
  {
    Pow2Small();
    hide Pow2;
    Pow2Add(2, 2);
    Pow2Add(4, 4);
    Pow2Add(8, 8);
    Pow2Add(15, 16);
    Pow2Add(1, 15);
    Pow2Add(16, 16);
    Pow2Add(32, 32);
  }

  lemma Pow2Small()
    ensures Pow2(0) == 1 && Pow2(1) == 2 && Pow2(2) == 4
  {
  }

  lemma Shr32(x: U64)
    ensures Shr(x, 32) == x / B32 < B32
    ensures x / B32 == 0 <==> x < B32
  {
    Pow2Values();
  }

  /** The x86 DIVL instruction traps unless the quotient fits in 32 bits. */
  predicate Traps(n: U64, d: U32) {
    d == 0 || n / d >= B32
  }

  function Divl(n: U64, d: U32): (q: U32)
    requires !Traps(n, d)
  {
    n / d
  }

  /** x << k with nothing shifted out. */
  function Scaled(x: int, k: nat): int { x * Pow2(k) }

  lemma ScaledZero(x: int)
    ensures Scaled(x, 0) == x
  {
  }

  lemma ScaledAdd(x: int, n: nat, k: nat)
    ensures Scaled(x, n + k) == Scaled(x, n) * Pow2(k)
  {
    Pow2Add(n, k);
    MulAssoc(x, Pow2(n), Pow2(k));
  }

  /** Number of leading zero bits: the shift that brings the top bit of x to bit 31. */
  method Nlz(x0: U32) returns (n: nat)
    requires x0 != 0
    ensures n <= 31
    ensures Pow2(31) <= Scaled(x0, n) < Pow2(32)
  {
    hide Pow2, Scaled;
    Pow2Values();
    ScaledZero(x0);
    var x: U32 := x0;
    n := 0;
    if x <= 0x0000FFFF {
      ScaledAdd(x0, n, 16);
      n, x := n + 16, x * 0x1_0000;
    }
    assert x == Scaled(x0, n) && 0x1_0000 <= x;
    if x <= 0x00FFFFFF {
      ScaledAdd(x0, n, 8);
      n, x := n + 8, x * 0x100;
    }
    assert x == Scaled(x0, n) && 0x100_0000 <= x;
    if x <= 0x0FFFFFFF {
      ScaledAdd(x0, n, 4);
      n, x := n + 4, x * 0x10;
    }
    assert x == Scaled(x0, n) && 0x1000_0000 <= x;
    if x <= 0x3FFFFFFF {
      ScaledAdd(x0, n, 2);
      n, x := n + 2, x * 4;
    }
    assert x == Scaled(x0, n) && 0x4000_0000 <= x;
    if x <= 0x7FFFFFFF {
      ScaledAdd(x0, n, 1);
      n := n + 1;
    }
  }

  // ----- The two cases of udiv64

  /** The second step of schoolbook division in base 2^32 cannot trap. */
  lemma NarrowDivides(n: U64, d: int)
    requires 0 < d < B32
    ensures var rest := B32 * (n / B32 % d) + n % B32; 0 <= rest < B64 && !Traps(rest, d)
  {
    var rest := B32 * (n / B32 % d) + n % B32;
    MulMono(n / B32 % d + 1, d, B32);
    DivAtMost(rest, d, B32);
  }

  lemma NarrowSum(n: U64, d: int)
    requires 0 < d < B32
    ensures (B32 * (n / B32 % d) + n % B32) / d + B32 * (n / B32 / d) == n / d
  {
    var n1, n0 := n / B32, n % B32;
    var q1, r1 := n1 / d, n1 % d;
    var rest := B32 * r1 + n0;
    var q0, r0 := rest / d, rest % d;
    assert n == B32 * (q1 * d + r1) + n0;
    assert B32 * (q1 * d + r1) == (B32 * q1) * d + B32 * r1;
    assert (q0 + B32 * q1) * d == q0 * d + (B32 * q1) * d;
    DivUnique(n, d, q0 + B32 * q1, r0);
  }

  /** A narrow divisor: schoolbook division in base 2^32. */
  lemma NarrowQuotient(n: U64, d: int)
    requires 0 < d < B32
    ensures var rest := Wrap64(B32 * (n / B32 % d) + n % B32);
      !Traps(rest, d) && Wrap64(rest / d + Wrap64(B32 * (n / B32 / d))) == n / d
  {
    hide Wrap64;
    NarrowDivides(n, d);
    NarrowSum(n, d);
    DivShrinks(n / B32, d);
    DivShrinks(n, d);
    WrapId(B32 * (n / B32 % d) + n % B32);
    WrapId(B32 * (n / B32 / d));
    WrapId(n / d);
  }

  /** Normalising a wide divisor by s = nlz (d >> 32) loses no bit and fills bit 63. */
  lemma Normalised(d: U64, s: nat)
    requires s <= 31 && Pow2(31) <= Scaled(d / B32, s) < Pow2(32)
    ensures Pow2(32 - s) * Pow2(s) == B32
    ensures B64 / 2 <= d * Pow2(s) < B64
  {
    hide Pow2;
    Pow2Values();
    Pow2Add(32 - s, s);
    var P, R, d1, d0 := Pow2(s), Pow2(32 - s), d / B32, d % B32;
    assert d * P == (d1 * P) * B32 + d0 * P by {
      assert d == d1 * B32 + d0;
      assert (d1 * B32) * P == (d1 * P) * B32;
    }
    MulMono(Pow2(31), d1 * P, B32);
    MulMono(0, d0, P);
    if d1 >= R {
      MulMono(R, d1, P);
      assert false;
    }
    MulMono(d0, B32 - 1, P);
    MulMono(d1 + 1, R, P);
    assert (d1 + 1) * P == d1 * P + P;
    assert (d1 * P + P) * B32 <= B32 * B32;
  }

  /** D, the divisor with its low 32 - s bits cleared, is what the narrow divide divides by. */
  lemma Truncated(d: int, P: int, R: int)
    requires P > 0 && R > 0 && R * P == B32 && d >= 0
    ensures var D := (d * P / B32) * R; 0 <= d - D < R
  {
    var v, r := d * P / B32, d * P % B32;
    var D := v * R;
    assert D * P == v * B32 by { MulAssoc(v, R, P); }
    assert (d - D) * P == r;
    if d - D < 0 { MulMono(d - D, -1, P); }
    if d - D >= R { MulMono(R, d - D, P); }
  }

  /** Dividing by D instead of d overshoots by less than one d. */
  lemma EstimateSlack(q: int, d: int, D: int, P: int, R: int)
    requires 0 <= q < 2 * P && B32 <= d && 0 < D <= d < D + R
    requires R * P == B32 && P >= 1 && d * P >= B64 / 2
    requires P <= 0x4000_0000 || R == 2
    ensures q * (d - D) <= d
  {
    if R == 2 {
      MulMono(d - D, 1, q);
    } else {
      MulMono(d - D, R, q);
      MulMono(q, 2 * P, R);
      assert (2 * P) * R == 2 * B32;
      if d < 2 * B32 {
        MulMono(d, 2 * B32 - 1, P);
        MulMono(P, 0x4000_0000, 2 * B32 - 1);
      }
    }
  }

  /** The estimate from the truncated divisor D is the true quotient or one more. */
  lemma EstimateError(n: int, d: int, D: int, P: int, R: int)
    requires 0 <= n < B64 && B32 <= d && 0 < D <= d < D + R
    requires R * P == B32 && P >= 1
    requires D * P >= B64 / 2 && d * P >= B64 / 2
    requires P <= 0x4000_0000 || R == 2
    ensures n / d <= n / D <= n / d + 1
  {
    var q := n / D;
    EstimateLow(n, d, D);
    assert (2 * P) * D == 2 * (D * P);
    DivAtMost(n, D, 2 * P);
    EstimateSlack(q, d, D, P, R);
    assert (q - 1) * d == q * D + q * (d - D) - d;
    DivAtLeast(n, d, q - 1);
  }

  lemma EstimateLow(n: nat, d: int, D: int)
    requires 0 < D <= d
    ensures n / d <= n / D
  {
    MulMono(D, d, n / d);
    DivAtLeast(n, D, n / d);
  }

  /** The normalised, truncated divisor fits the narrow divide, which does not trap on n >> 1. */
  lemma WideDivides(n: U64, d: U64, s: nat)
    requires B32 <= d && s <= 31
    requires Pow2(31) <= Scaled(d / B32, s) < Pow2(32)
    ensures var v := Shr(Shl64(d, s), 32);
      Shl64(d, s) == d * Pow2(s) && 0x8000_0000 <= v < B32 && !Traps(Shr(n, 1), v)
  {
    hide Pow2;
    Pow2Values();
    Normalised(d, s);
    var v := Shr(Shl64(d, s), 32);
    MulMono(0x8000_0000, v, B32);
    DivAtMost(n / 2, v, B32);
  }

  /** Before its correction, udiv64's estimate is the true quotient or one more. */
  lemma WideEstimate(n: U64, d: U64, s: nat)
    requires B32 <= d && s <= 31
    requires Pow2(31) <= Scaled(d / B32, s) < Pow2(32)
    ensures var v := Shr(Shl64(d, s), 32);
      v > 0 && n / d <= Shr(Shr(n, 1) / v, 31 - s) <= n / d + 1
  {
    hide Pow2;
    Pow2Values();
    Normalised(d, s);
    WideDivides(n, d, s);
    var P, R, v := Pow2(s), Pow2(32 - s), Shr(Shl64(d, s), 32);
    var D := v * R;
    Pow2Add(1, 31 - s);
    DivDiv(n, 2, v);
    DivDiv(n, 2 * v, Pow2(31 - s));
    assert (2 * v) * Pow2(31 - s) == D by { MulAssoc(v, 2, Pow2(31 - s)); }
    Truncated(d, P, R);
    assert D * P == v * B32 by { MulAssoc(v, R, P); }
    SmallPower(s);
    MulMono(1, v, R);
    EstimateError(n, d, D, P, R);
  }

  lemma SmallPower(s: nat)
    requires s <= 31
    ensures Pow2(s) <= 0x4000_0000 || Pow2(32 - s) == 2
  {
    hide Pow2;
    Pow2Values();
    if s <= 30 {
      Pow2Add(s, 30 - s);
      Pow2Add(1, 30);
      MulMono(1, Pow2(30 - s), Pow2(s));
    }
  }

  /** The correction picks the true quotient from the two candidates without wrapping. */
  lemma Corrected(n: U64, d: U64, q: int)
    requires 0 < d <= n && n / d <= q <= n / d + 1
    ensures 1 <= q && 0 <= (q - 1) * d <= n
    ensures n / d == if n - (q - 1) * d < d then q - 1 else q
  {
    DivAtLeast(n, d, 1);
    MulMono(q - 1, n / d, d);
    MulMono(0, q - 1, d);
    if n - (q - 1) * d < d {
      DivUnique(n, d, q - 1, n - (q - 1) * d);
    }
  }

  /** The last step of the wide case: steps back from the estimate, and forward again if too far. */
  function Correction(n: U64, d: U64, q: U64): U64 {
    if Wrap64(n - Wrap64(Wrap64(q - 1) * d)) < d then Wrap64(q - 1) else q
  }

  /** The correction never wraps and yields the true quotient. */
  lemma CorrectionExact(n: U64, d: U64, q: U64)
    requires 0 < d <= n && n / d <= q <= n / d + 1
    ensures Correction(n, d, q) == n / d
  {
    hide Wrap64;
    Corrected(n, d, q);
    WrapId(q - 1);
    WrapId((q - 1) * d);
    WrapId(n - (q - 1) * d);
  }

  /** Unsigned 64-bit division, exactly: divl never traps and nothing wraps. */
  method Udiv64(n: U64, d: U64) returns (quotient: U64)
    requires d != 0
    ensures quotient == n / d
  {
    hide Shr;
    Shr32(d);
    if n < d { DivUnique(n, d, 0, n); }
    if Shr(d, 32) == 0 {
      quotient := NarrowCase(n, d);
    } else if n < d {
      quotient := 0;
    } else {
      quotient := WideCase(n, d);
    }
  }

  /** A divisor of 32 bits: long division in two steps. */
  method NarrowCase(n: U64, d: U64) returns (quotient: U64)
    requires 0 < d < B32
    ensures quotient == n / d
  {
    hide Wrap64;
    var n1, n0, d0 := n / B32, n % B32, d;
    NarrowQuotient(n, d);
    quotient := Wrap64(Divl(Wrap64(B32 * (n1 % d0) + n0), d0) + Wrap64(B32 * (n1 / d0)));
  }

  /** A wider divisor: one divide estimates the quotient. */
  method WideCase(n: U64, d: U64) returns (quotient: U64)
    requires B32 <= d <= n
    ensures quotient == n / d
  {
    hide Wrap64, Pow2, Shl64, Correction;
    Pow2Values();
    Shr32(d);
    var d1 := Shr(d, 32);
    var s := Nlz(d1);
    WideDivides(n, d, s);
    WideEstimate(n, d, s);
    var q := Shr(Divl(Shr(n, 1), Shr(Shl64(d, s), 32)), 31 - s);
    CorrectionExact(n, d, q);
    quotient := Correction(n, d, q);
  }

  // ----- Signed division and the remainders

  lemma WrapId(x: int)
    requires 0 <= x < B64
    ensures Wrap64(x) == x
  {
  }

  lemma WrapNegative(x: int)
    requires -B64 <= x < 0
    ensures Wrap64(x) == x + B64
  {
    DivUnique(x, B64, -1, x + B64);
  }

  /** Two's complement reading of a wrapped result. */
  function ToI64(x: int): I64 {
    var w := Wrap64(x);
    if w < B64 / 2 then w else w - B64
  }

  lemma ToI64Id(x: int)
    ensures -B64 / 2 <= x < B64 / 2 ==> ToI64(x) == x
    ensures x == B64 / 2 ==> ToI64(x) == INT64_MIN
  {
    if -B64 / 2 <= x < 0 { WrapNegative(x); }
  }

  function ToU32(x: int): U32 { x % B32 }

  function ToI32(x: int): I32 {
    var w := ToU32(x);
    if w < B32 / 2 then w else w - B32
  }

  /** (uint64_t) n negated modulo 2^64 is |n|, INT64_MIN included. */
  function UnsignedAbs(n: I64): (u: U64)
    ensures u == Abs(n)
  {
    if n >= 0 then WrapId(n); Wrap64(n)
    else
      WrapNegative(n);
      var w: int := Wrap64(n);
      WrapNegative(-w);
      Wrap64(-w)
  }

  method Sdiv64(n: I64, d: I64) returns (quotient: I64)
    requires d != 0
    ensures quotient == if n == INT64_MIN && d == -1 then INT64_MIN else TruncDiv(n, d)
  {
    var nAbs, dAbs := UnsignedAbs(n), UnsignedAbs(d);
    var qAbs := Udiv64(nAbs, dAbs);
    hide Wrap64, ToI64;
    SdivMagnitude(n, d);
    ToI64Id(qAbs);
    var q: int := ToI64(qAbs);
    ToI64Id(-q);
    quotient := if (n < 0) == (d < 0) then q else ToI64(-q);
  }

  /** Only INT64_MIN / -1 needs a quotient that int64_t lacks. */
  lemma SdivMagnitude(n: I64, d: I64)
    requires d != 0
    ensures Abs(n) / Abs(d) <= B64 / 2
    ensures Abs(n) / Abs(d) == B64 / 2 && (n < 0) == (d < 0) <==> n == INT64_MIN && d == -1
  {
    DivShrinks(Abs(n), Abs(d));
    if Abs(d) >= 2 {
      MulMono(2, Abs(d), B64 / 2);
      DivAtMost(Abs(n), Abs(d), B64 / 2);
    }
  }

  /** umod64 returns 32 bits of the remainder. */
  method Umod64(n: U64, d: U64) returns (remainder: U32)
    requires d != 0
    ensures remainder == ToU32(n % d)
  {
    hide Wrap64;
    var q := Udiv64(n, d);
    assert n == q * d + n % d;
    MulMono(0, q, d);
    WrapId(d * q);
    WrapId(n - d * q);
    remainder := ToU32(Wrap64(n - Wrap64(d * q)));
  }

  /** smod64 returns 32 bits of the remainder that truncating division leaves. */
  method Smod64(n: I64, d: I64) returns (remainder: I32)
    requires d != 0
    ensures remainder == ToI32(n - d * TruncDiv(n, d))
  {
    hide Wrap64, ToI64;
    var q := Sdiv64(n, d);
    TruncProduct(n, d);
    ToI64Id(d * q);
    ToI64Id(n - ToI64(d * q));
    remainder := ToI32(ToI64(n - ToI64(d * q)));
  }

  /** The remainder has the sign of n and is smaller than |d|. */
  lemma TruncProduct(n: int, d: int)
    requires d != 0
    ensures d * TruncDiv(n, d) == if n < 0 then -Abs(d) * (Abs(n) / Abs(d)) else Abs(d) * (Abs(n) / Abs(d))
    ensures var r := n - d * TruncDiv(n, d); Abs(r) < Abs(d) && (r == 0 || (r < 0) == (n < 0))
    ensures Abs(d * TruncDiv(n, d)) <= Abs(n)
  {
    TruncSigns(n, d);
    hide TruncDiv;
    var a: int, b: int := Abs(n), Abs(d);
    var p: int, r: int := b * (a / b), a % b;
    Quotient(a, b);
    NegativeFactors(b, a / b);
    RemainderSigns(n, b, p, r, d * TruncDiv(n, d));
  }

  lemma Quotient(a: int, b: int)
    requires a >= 0 && b > 0
    ensures a == b * (a / b) + a % b && 0 <= a % b < b && b * (a / b) >= 0
  {
    MulMono(0, a / b, b);
  }

  lemma RemainderSigns(n: int, b: int, p: int, r: int, t: int)
    requires Abs(n) == p + r && 0 <= r < b && p >= 0 && t == if n < 0 then -p else p
    ensures Abs(n - t) < b && (n - t == 0 || (n - t < 0) == (n < 0)) && Abs(t) <= Abs(n)
  {
  }

  lemma TruncSigns(n: int, d: int)
    requires d != 0
    ensures d * TruncDiv(n, d) == if n < 0 then -Abs(d) * (Abs(n) / Abs(d)) else Abs(d) * (Abs(n) / Abs(d))
  {
    var q: int := Abs(n) / Abs(d);
    NegativeFactors(Abs(d), q);
    NegativeFactors(d, q);
  }

  lemma NegativeFactors(x: int, y: int)
    ensures -x * y == -(x * y) == x * -y && -x * -y == x * y
  {
  }

  /** Every remainder by d survives the 32-bit return type exactly when d is at most 2^32. */
  lemma UmodExactDivisors(d: U64)
    requires d != 0
    ensures (forall n: U64 :: ToU32(n % d) == n % d) <==> d <= B32
  {
    if d > B32 {
      var n: U64 := B32;
      DivUnique(n, d, 0, B32);
      assert ToU32(n % d) != n % d;
    } else {
      forall n: U64 ensures ToU32(n % d) == n % d {
        assert 0 <= n % d < d;
        hide *;
        DivUnique(n % d, B32, 0, n % d);
      }
    }
  }

  /** Every remainder of truncating division by d survives the signed 32-bit return type exactly
      when |d| is at most 2^31: 2^31 itself is a remainder by any larger divisor. */
  lemma SmodExactDivisors(d: I64)
    requires d != 0
    ensures (forall n: I64 :: ToI32(n - d * TruncDiv(n, d)) == n - d * TruncDiv(n, d)) <==> Abs(d) <= 0x8000_0000
  {
    if Abs(d) > 0x8000_0000 {
      var n: I64 := 0x8000_0000;
      DivUnique(n, Abs(d), 0, n);
      assert TruncDiv(n, d) == 0 && ToI32(n) != n;
      assert ToI32(n - d * TruncDiv(n, d)) != n - d * TruncDiv(n, d);
    } else {
      forall n: I64 ensures ToI32(n - d * TruncDiv(n, d)) == n - d * TruncDiv(n, d) {
        TruncProduct(n, d);
        var r: int := n - d * TruncDiv(n, d);
        assert -0x8000_0000 < r < 0x8000_0000;
        hide TruncDiv, Abs;
        ToI32Id(r);
      }
    }
  }

  lemma ToI32Id(x: int)
    requires -0x8000_0000 <= x < 0x8000_0000
    ensures ToI32(x) == x
  {
    DivUnique(x, B32, if x < 0 then -1 else 0, if x < 0 then x + B32 else x);
  }
}
