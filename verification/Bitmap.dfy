/**
 Bitmaps packed into 32-bit words (lib/kernel/bitmap.c), refining a sequence of bits.
 */
module Bitmap {
  import opened Options

  const ELEM_BITS: nat := 32

  function ElemCnt(bitCnt: nat): nat {
    (bitCnt + ELEM_BITS - 1) / ELEM_BITS
  }

  function MaskAt(a: bv6): bv32
    requires a < 32
  {
    (1 as bv32) << a
  }

  function Position(k: nat): (a: bv6)
    requires k < 32
    ensures a < 32
  {
    k as bv6
  }

  lemma PositionValue(k: nat)
    requires k < 32
    ensures Position(k) as int == k
  {
  }

  lemma SamePosition(i: nat, j: nat)
    requires i < 32 && j < 32
    ensures Position(i) == Position(j) <==> i == j
  {
    PositionValue(i);
    PositionValue(j);
  }

  /** bit_mask: the mask of the bit's position in its word. */
  function BitMask(bitIdx: nat): bv32 {
    MaskAt(Position(bitIdx % ELEM_BITS))
  }

  function BitAt(word: bv32, a: bv6): bool
    requires a < 32
  {
    word & MaskAt(a) != 0
  }

  function BitOf(word: bv32, bitIdx: nat): bool {
    BitAt(word, Position(bitIdx % ELEM_BITS))
  }

  /** The word with the bit_mask of position a or-ed, and-not-ed and xor-ed in. */
  function Or(word: bv32, a: bv6): bv32
    requires a < 32
  {
    word | MaskAt(a)
  }

  function AndNot(word: bv32, a: bv6): bv32
    requires a < 32
  {
    word & !MaskAt(a)
  }

  function Xor(word: bv32, a: bv6): bv32
    requires a < 32
  {
    word ^ MaskAt(a)
  }

  /** Or, and-not and xor with a mask change the masked bit and no other. */
  lemma MarkedAt(word: bv32, a: bv6, b: bv6)
    requires a < 32 && b < 32
    ensures BitAt(word | MaskAt(a), b) == (a == b || BitAt(word, b))
  {
    assert (word | MaskAt(a)) & MaskAt(b) == (word & MaskAt(b)) | (MaskAt(a) & MaskAt(b));
  }

  lemma ResetAt(word: bv32, a: bv6, b: bv6)
    requires a < 32 && b < 32
    ensures BitAt(word & !MaskAt(a), b) == (a != b && BitAt(word, b))
  {
  }

  lemma FlippedAt(word: bv32, a: bv6, b: bv6)
    requires a < 32 && b < 32
    ensures BitAt(word ^ MaskAt(a), b) == ((a == b) != BitAt(word, b))
  {
  }

  lemma OrBits(word: bv32, a: bv6, b: bv6)
    requires a < 32 && b < 32
    ensures BitAt(Or(word, a), b) == (a == b || BitAt(word, b))
  {
    hide BitAt, MaskAt;
    MarkedAt(word, a, b);
    assert Or(word, a) == word | MaskAt(a);
  }

  lemma AndNotBits(word: bv32, a: bv6, b: bv6)
    requires a < 32 && b < 32
    ensures BitAt(AndNot(word, a), b) == (a != b && BitAt(word, b))
  {
    hide BitAt, MaskAt;
    ResetAt(word, a, b);
    assert AndNot(word, a) == word & !MaskAt(a);
  }

  lemma XorBits(word: bv32, a: bv6, b: bv6)
    requires a < 32 && b < 32
    ensures BitAt(Xor(word, a), b) == ((a == b) != BitAt(word, b))
  {
    hide BitAt, MaskAt;
    FlippedAt(word, a, b);
    assert Xor(word, a) == word ^ MaskAt(a);
  }

  /** `more` is `word` with the bit of index `bitIdx` set to `value` and no other changed. */
  ghost predicate OneBit(word: bv32, more: bv32, bitIdx: nat, value: bool) {
    forall i: nat :: BitOf(more, i) == if i % ELEM_BITS == bitIdx % ELEM_BITS then value else BitOf(word, i)
  }

  lemma MarkOneBit(word: bv32, k: nat)
    ensures OneBit(word, Or(word, Position(k % ELEM_BITS)), k, true)
  {
    hide Or, BitAt, Position;
    var a := Position(k % ELEM_BITS);
    forall i: nat ensures BitOf(Or(word, a), i) == if i % ELEM_BITS == k % ELEM_BITS then true else BitOf(word, i) {
      OrBits(word, a, Position(i % ELEM_BITS));
      SamePosition(k % ELEM_BITS, i % ELEM_BITS);
    }
  }

  lemma ResetOneBit(word: bv32, k: nat)
    ensures OneBit(word, AndNot(word, Position(k % ELEM_BITS)), k, false)
  {
    hide AndNot, BitAt, Position;
    var a := Position(k % ELEM_BITS);
    forall i: nat
      ensures BitOf(AndNot(word, a), i) == if i % ELEM_BITS == k % ELEM_BITS then false else BitOf(word, i)
    {
      AndNotBits(word, a, Position(i % ELEM_BITS));
      SamePosition(k % ELEM_BITS, i % ELEM_BITS);
    }
  }

  lemma FlipOneBit(word: bv32, k: nat)
    ensures OneBit(word, Xor(word, Position(k % ELEM_BITS)), k, !BitOf(word, k))
  {
    hide Xor, BitAt, Position;
    var a := Position(k % ELEM_BITS);
    forall i: nat
      ensures BitOf(Xor(word, a), i) == if i % ELEM_BITS == k % ELEM_BITS then !BitOf(word, k) else BitOf(word, i)
    {
      XorBits(word, a, Position(i % ELEM_BITS));
      SamePosition(k % ELEM_BITS, i % ELEM_BITS);
    }
  }

  lemma SameIndex(k: nat)
    ensures forall i: nat :: i / ELEM_BITS == k / ELEM_BITS && i % ELEM_BITS == k % ELEM_BITS ==> i == k
  {
  }

  // ----- Groups of bits in the abstract sequence

  ghost predicate AllAre(s: seq<bool>, start: nat, cnt: nat, value: bool)
    requires start + cnt <= |s|
  {
    forall i :: start <= i < start + cnt ==> s[i] == value
  }

  ghost function Filled(s: seq<bool>, start: nat, cnt: nat, value: bool): (r: seq<bool>)
    requires start + cnt <= |s|
    ensures |r| == |s|
  {
    seq(|s|, i requires 0 <= i < |s| => if start <= i < start + cnt then value else s[i])
  }

  /** `found` is the first group of `cnt` bits of that value at or after `start`, if any. */
  ghost predicate FirstGroup(s: seq<bool>, start: nat, cnt: nat, value: bool, found: Option<nat>) {
    match found
    case Some(i) =>
      && start <= i && i + cnt <= |s| && AllAre(s, i, cnt, value)
      && forall j :: start <= j < i ==> !AllAre(s, j, cnt, value)
    case None =>
      forall j :: start <= j && j + cnt <= |s| ==> !AllAre(s, j, cnt, value)
  }

  class Bitmap {
    const bitCnt: nat
    const bits: array<bv32>

    ghost predicate Valid()
      reads this
    {
      bits.Length == ElemCnt(bitCnt)
    }

    ghost function Bits(): (s: seq<bool>)
      requires Valid()
      reads this, bits
      ensures |s| == bitCnt
    {
      seq(bitCnt, i requires 0 <= i < bitCnt && bits.Length == ElemCnt(bitCnt) reads bits =>
        BitOf(bits[i / ELEM_BITS], i))
    }

    /** bitmap_create, when memory suffices: all bits false. */
    constructor (bitCnt: nat)
      ensures Valid() && fresh(bits) && this.bitCnt == bitCnt
      ensures Bits() == seq(bitCnt, _ => false)
    {
      this.bitCnt := bitCnt;
      bits := new bv32[ElemCnt(bitCnt)];
      new;
      SetMultiple(0, bitCnt, false);
    }

    method Mark(bitIdx: nat)
      requires Valid() && bitIdx < bitCnt
      modifies bits
      ensures Bits() == old(Bits())[bitIdx := true]
    {
      hide BitOf, Position, Or;
      var idx := bitIdx / ELEM_BITS;
      ghost var was := Bits();
      MarkOneBit(bits[idx], bitIdx);
      SameIndex(bitIdx);
      bits[idx] := Or(bits[idx], Position(bitIdx % ELEM_BITS));
      assert Bits() == was[bitIdx := true];
    }

    method Reset(bitIdx: nat)
      requires Valid() && bitIdx < bitCnt
      modifies bits
      ensures Bits() == old(Bits())[bitIdx := false]
    {
      hide BitOf, Position, AndNot;
      var idx := bitIdx / ELEM_BITS;
      ghost var was := Bits();
      ResetOneBit(bits[idx], bitIdx);
      SameIndex(bitIdx);
      bits[idx] := AndNot(bits[idx], Position(bitIdx % ELEM_BITS));
      assert Bits() == was[bitIdx := false];
    }

    method Flip(bitIdx: nat)
      requires Valid() && bitIdx < bitCnt
      modifies bits
      ensures Bits() == old(Bits())[bitIdx := !old(Bits())[bitIdx]]
    {
      hide BitOf, Position, Xor;
      var idx := bitIdx / ELEM_BITS;
      ghost var was := Bits();
      FlipOneBit(bits[idx], bitIdx);
      SameIndex(bitIdx);
      bits[idx] := Xor(bits[idx], Position(bitIdx % ELEM_BITS));
      assert Bits() == was[bitIdx := !was[bitIdx]];
    }

    method Test(idx: nat) returns (b: bool)
      requires Valid() && idx < bitCnt
      ensures b == Bits()[idx]
    {
      b := bits[idx / ELEM_BITS] & BitMask(idx) != 0;
    }

    method Set(idx: nat, value: bool)
      requires Valid() && idx < bitCnt
      modifies bits
      ensures Bits() == old(Bits())[idx := value]
    {
      if value {
        Mark(idx);
      } else {
        Reset(idx);
      }
    }

    method SetMultiple(start: nat, cnt: nat, value: bool)
      requires Valid() && start + cnt <= bitCnt
      modifies bits
      ensures Bits() == Filled(old(Bits()), start, cnt, value)
    {
      for i := 0 to cnt
        invariant Bits() == Filled(old(Bits()), start, i, value)
      {
        Set(start + i, value);
      }
    }

    method Contains(start: nat, cnt: nat, value: bool) returns (b: bool)
      requires Valid() && start + cnt <= bitCnt
      ensures b == !AllAre(Bits(), start, cnt, !value)
    {
      for i := 0 to cnt
        invariant AllAre(Bits(), start, i, !value)
      {
        var bit := Test(start + i);
        if bit == value {
          return true;
        }
      }
      return false;
    }

    method Scan(start: nat, cnt: nat, value: bool) returns (found: Option<nat>)
      requires Valid() && start <= bitCnt
      ensures FirstGroup(Bits(), start, cnt, value, found)
    {
      if cnt <= bitCnt {
        var last := bitCnt - cnt;
        var i := start;
        while i <= last
          invariant start <= i
          invariant forall j :: start <= j < i && j <= last ==> !AllAre(Bits(), j, cnt, value)
        {
          var other := Contains(i, cnt, !value);
          if !other {
            return Some(i);
          }
          i := i + 1;
        }
      }
      return None;
    }

    method ScanAndFlip(start: nat, cnt: nat, value: bool) returns (found: Option<nat>)
      requires Valid() && start <= bitCnt
      modifies bits
      ensures FirstGroup(old(Bits()), start, cnt, value, found)
      ensures Bits() == if found.None? then old(Bits()) else Filled(old(Bits()), found.value, cnt, !value)
    {
      found := Scan(start, cnt, value);
      if found.Some? {
        SetMultiple(found.value, cnt, !value);
      }
    }
  }
}
