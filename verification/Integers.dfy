/** Facts of integer arithmetic that the models share. */
module Integers {
  function Pow2(k: nat): (p: nat)
    ensures p > 0
  {
    if k == 0 then 1 else 2 * Pow2(k - 1)
  }

  lemma {:induction false} Pow2Add(a: nat, b: nat)
    ensures Pow2(a + b) == Pow2(a) * Pow2(b)
  {
    if a > 0 {
      Pow2Add(a - 1, b);
      assert Pow2(a + b) == 2 * (Pow2(a - 1) * Pow2(b)) == (2 * Pow2(a - 1)) * Pow2(b);
    }
  }

  lemma MulAssoc(a: int, b: int, c: int)
    ensures a * (b * c) == (a * b) * c
  {
  }

  lemma DivUnique(n: int, d: int, q: int, r: int)
    requires d > 0 && n == q * d + r && 0 <= r < d
    ensures n / d == q && n % d == r
  {
    var k, m := n / d, n % d;
    assert n == k * d + m;
    assert (q - k) * d == m - r;
    if q > k { MulMono(1, q - k, d); }
    if q < k { MulMono(1, k - q, d); }
  }

  lemma MulMono(a: int, b: int, c: int)
    requires a <= b && c >= 0
    ensures a * c <= b * c
  {
  }

  lemma DivAtLeast(n: int, d: int, k: int)
    requires d > 0 && k * d <= n
    ensures k <= n / d
  {
    var q := n / d;
    if q < k { MulMono(q + 1, k, d); }
  }

  lemma DivAtMost(n: int, d: int, k: int)
    requires d > 0 && n < k * d
    ensures n / d < k
  {
    var q := n / d;
    if k <= q { MulMono(k, q, d); }
  }

  lemma DivDiv(n: nat, a: int, b: int)
    requires a > 0 && b > 0
    ensures a * b > 0 && (n / a) / b == n / (a * b)
  {
    MulMono(1, a, b);
    var m, q := n / a, n / a / b;
    var r := n % a + a * (m % b);
    assert n == a * (b * q + m % b) + n % a;
    assert a * (b * q + m % b) == q * (a * b) + a * (m % b);
    MulMono(m % b, b - 1, a);
    DivUnique(n, a * b, q, r);
  }

  lemma DivShrinks(n: nat, d: int)
    requires d > 0
    ensures 0 <= n / d <= n
  {
    MulMono(1, d, n);
    DivAtMost(n, d, n + 1);
  }

  // ----- C's signed division

  type I32 = x: int | -0x8000_0000 <= x < 0x8000_0000

  /** C's division: truncation toward zero. */
  function TruncDiv(n: int, d: int): int
    requires d != 0
  {
    if (n < 0) == (d < 0) then Abs(n) / Abs(d) else -(Abs(n) / Abs(d))
  }

  function Abs(x: int): int { if x < 0 then -x else x }

  lemma TruncDivBounds(n: int, d: int)
    requires d > 0
    ensures n >= 0 ==> d * TruncDiv(n, d) <= n < d * (TruncDiv(n, d) + 1)
    ensures n <= 0 ==> d * (TruncDiv(n, d) - 1) < n <= d * TruncDiv(n, d)
    ensures n >= 0 ==> 0 <= TruncDiv(n, d)
    ensures n <= 0 ==> TruncDiv(n, d) <= 0
  {
    var q := Abs(n) / d;
    assert Abs(n) == d * q + Abs(n) % d;
    DivAtLeast(Abs(n), d, 0);
  }

  lemma TruncDivMono(m: int, n: int, d: int)
    requires d > 0 && m <= n
    ensures TruncDiv(m, d) <= TruncDiv(n, d)
  {
    var a, b := TruncDiv(m, d), TruncDiv(n, d);
    TruncDivBounds(m, d);
    TruncDivBounds(n, d);
    if a > b && m > 0 { MulMono(b + 1, a, d); }
    if a > b && n < 0 { MulMono(b, a - 1, d); }
  }

  // ----- Bitwise and

  /** C's & on unsigned values, bit by bit. */
  function And(x: nat, y: nat): nat {
    if x == 0 || y == 0 then 0 else 2 * And(x / 2, y / 2) + (x % 2) * (y % 2)
  }

  /** Masking with 2^k - 1 is the remainder by 2^k. */
  lemma {:induction false} AndMask(x: nat, k: nat)
    ensures And(x, Pow2(k) - 1) == x % Pow2(k)
  {
    if k == 0 {
      DivUnique(x, 1, x, 0);
    } else if x == 0 {
      DivUnique(0, Pow2(k), 0, 0);
    } else {
      AndMask(x / 2, k - 1);
      var p := Pow2(k - 1);
      assert (2 * p - 1) / 2 == p - 1 && (2 * p - 1) % 2 == 1;
      ModDouble(x, p);
    }
  }

  lemma ModDouble(x: nat, p: nat)
    requires p > 0
    ensures x % (2 * p) == 2 * (x / 2 % p) + x % 2
  {
    var q, r := x / 2 / p, x / 2 % p;
    assert q * (2 * p) == 2 * (q * p);
    assert x / 2 == q * p + r;
    DivUnique(x, 2 * p, q, 2 * r + x % 2);
  }

  /** x & (x - 1): x with its lowest set bit turned off. */
  lemma {:induction false} AndPredecessor(x: nat)
    requires x > 0
    ensures And(x, x - 1) < x
    ensures x % 2 == 1 ==> And(x, x - 1) == x - 1
    ensures x % 2 == 0 ==> And(x, x - 1) == 2 * And(x / 2, x / 2 - 1)
  {
    if x % 2 == 1 {
      AndSelf(x / 2);
    } else {
      AndPredecessor(x / 2);
      assert (x - 1) / 2 == x / 2 - 1;
    }
  }

  lemma {:induction false} AndSelf(x: nat)
    ensures And(x, x) == x
  {
    if x > 0 {
      AndSelf(x / 2);
      assert x == 2 * (x / 2) + x % 2;
    }
  }

  predicate IsPow2(x: nat)
  {
    x != 0 && And(x, x - 1) == 0
  }

  lemma {:induction false} IsPow2Exponent(x: nat) returns (k: nat)
    requires IsPow2(x)
    ensures x == Pow2(k)
  {
    AndPredecessor(x);
    if x % 2 == 1 {
      k := 0;
    } else {
      k := IsPow2Exponent(x / 2);
      k := k + 1;
    }
  }

  lemma {:induction false} Pow2IsPow2(k: nat)
    ensures IsPow2(Pow2(k))
  {
    AndPredecessor(Pow2(k));
    if k > 0 {
      Pow2IsPow2(k - 1);
    }
  }

  /** The exponent of x's highest set bit. */
  function Log2(x: nat): (k: nat)
    requires x > 0
    ensures Pow2(k) <= x < Pow2(k + 1)
  {
    if x == 1 then 0 else Log2(x / 2) + 1
  }

  /** Turning off the lowest set bit of a number that is no power of two keeps its highest. */
  lemma {:induction false} PredecessorKeepsTop(x: nat, k: nat)
    requires Pow2(k) < x < Pow2(k + 1)
    ensures Pow2(k) <= And(x, x - 1) < x
  {
    AndPredecessor(x);
    if k > 0 && x % 2 == 0 {
      PredecessorKeepsTop(x / 2, k - 1);
    }
  }
}
