/** The 17.14 fixed-point arithmetic of the 4.4BSD scheduler (threads/fixed-point.h).
    Each operation demands that its int result is representable: C leaves the rest undefined. */
module FixedPoint {
  import opened Integers

  const F: int := 16384

  predicate Fits(x: int) { -0x8000_0000 <= x < 0x8000_0000 }

  function IntToFp(n: I32): I32
    requires Fits(n * F)
  {
    n * F
  }

  function FpToIntZero(x: I32): (r: I32)
    ensures Abs(r) <= Abs(x)
  {
    TruncDivBounds(x, F);
    TruncDiv(x, F)
  }

  function FpToIntNear(x: I32): (r: I32)
    requires Fits(if x > 0 then x + F / 2 else x - F / 2)
    ensures 2 * Abs(r * F - x) <= F
  {
    var y: int := if x > 0 then x + F / 2 else x - F / 2;
    TruncDivBounds(y, F);
    TruncDiv(y, F)
  }

  function SubXY(x: I32, y: I32): I32
    requires Fits(x - y)
  {
    x - y
  }

  function AddXY(x: I32, y: I32): I32
    requires Fits(x + y)
  {
    x + y
  }

  function AddXN(x: I32, n: I32): I32
    requires Fits(n * F) && Fits(x + n * F)
  {
    x + n * F
  }

  function SubXN(x: I32, n: I32): I32
    requires Fits(n * F) && Fits(x - n * F)
  {
    x - n * F
  }

  /** The product is formed in 64 bits. */
  function MulXY(x: I32, y: I32): I32
    requires Fits(TruncDiv(x * y, F))
  {
    TruncDiv(x * y, F)
  }

  function MulXN(x: I32, n: I32): I32
    requires Fits(x * n)
  {
    x * n
  }

  function DivXY(x: I32, y: I32): I32
    requires y != 0 && Fits(TruncDiv(x * F, y))
  {
    TruncDiv(x * F, y)
  }

  function DivXN(x: I32, n: I32): (r: I32)
    requires n > 0
    ensures Abs(r) <= Abs(x)
  {
    TruncDivBounds(x, n);
    if x >= 0 then MulMono(1, n, TruncDiv(x, n)); TruncDiv(x, n)
    else MulMono(1, n, -TruncDiv(x, n)); TruncDiv(x, n)
  }
}
