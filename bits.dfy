/**
 * 64-bit words and the three `math/bits`-style primitives the bitset relies on:
 * the single-bit mask `1 << p`, the population count `bits.OnesCount64` and the
 * trailing-zero count `bits.TrailingZeros64`.  Words are 64-bit vectors and
 * bit positions are 8-bit vectors below 64, so that facts about single bits
 * stay within bit-vector reasoning.
 */
module Bits {

  /** A bit position inside a word. */
  type Pos = p: bv8 | p < 64

  /** A scan index over the positions of a word; 64 means "past the top bit". */
  type Index = i: bv8 | i <= 64

  /** The mask `1 << p` of one position. */
  function Bit(p: Pos): bv64
  {
    (1 as bv64) << p
  }

  /** Bit `p` of `w` is set: `w & (1 << p) != 0`. */
  predicate HasBit(w: bv64, p: Pos)
  {
    w & Bit(p) != 0
  }

  /** The mask of all positions below `i`. */
  function LowMask(i: Index): bv64
  {
    !(0xFFFF_FFFF_FFFF_FFFF << i)
  }

  // ---------------------------------------------------------------------
  // Single-bit updates

  /** Go's `x & y` on words. */
  function And(x: bv64, y: bv64): bv64
  {
    x & y
  }

  /** Go's `x &^ y` on words: the bits of `x` that `y` lacks. */
  function AndNot(x: bv64, y: bv64): bv64
  {
    x & !y
  }

  /** Go's `x | y` on words. */
  function Or(x: bv64, y: bv64): bv64
  {
    x | y
  }

  /** The word with bit `p` cleared: Go's `w &^ (1 << p)`. */
  function Unset(w: bv64, p: Pos): bv64
  {
    w & !Bit(p)
  }

  lemma OrBitSame(w: bv64, p: Pos)
    ensures HasBit(w | Bit(p), p)
    ensures w | Bit(p) != 0
  {
  }

  lemma OrBitOther(w: bv64, p: Pos, q: Pos)
    requires p != q
    ensures HasBit(w | Bit(p), q) == HasBit(w, q)
  {
  }

  /** Setting bit `p` changes exactly bit `p`. */
  lemma OrBitAt(w: bv64, p: Pos, q: Pos)
    ensures HasBit(w | Bit(p), q) <==> p == q || HasBit(w, q)
  {
    if p == q { OrBitSame(w, p); } else { OrBitOther(w, p, q); }
  }

  /** Clearing bit `p` (`w &^ (1 << p)`) changes exactly bit `p`. */
  lemma AndNotBitAt(w: bv64, p: Pos, q: Pos)
    ensures HasBit(w & !Bit(p), q) <==> p != q && HasBit(w, q)
  {
  }

  lemma UnsetAt(w: bv64, p: Pos, q: Pos)
    ensures HasBit(Unset(w, p), q) <==> p != q && HasBit(w, q)
  {
    AndNotBitAt(w, p, q);
  }

  /** The word `Bit(p)` has exactly one bit set, at `p`. */
  lemma BitOnly(p: Pos, q: Pos)
    ensures HasBit(Bit(p), q) <==> p == q
  {
  }

  lemma UnsetOnly(p: Pos)
    ensures Unset(Bit(p), p) == 0
  {
  }

  lemma ZeroOr(x: bv64)
    ensures 0 | x == x
  {
  }

  lemma AndZero(x: bv64, y: bv64)
    requires x == 0 || y == 0
    ensures x & y == 0
  {
  }

  /** Setting a clear bit and clearing a set bit undo each other. */
  lemma ToggleBack(w: bv64, p: Pos)
    ensures !HasBit(w, p) ==> (w | Bit(p)) & !Bit(p) == w
    ensures HasBit(w, p) ==> (w & !Bit(p)) | Bit(p) == w
  {
  }

  /** The word with bit `p` toggled, as `Flip` computes it: cleared if set, set if clear. */
  function Toggle(w: bv64, p: Pos): bv64
  {
    if HasBit(w, p) then w & !Bit(p) else w | Bit(p)
  }

  /** Toggling bit `p` changes exactly bit `p`. */
  lemma ToggleAt(w: bv64, p: Pos, q: Pos)
    ensures HasBit(Toggle(w, p), q) <==> (p == q) != HasBit(w, q)
  {
    if HasBit(w, p) { AndNotBitAt(w, p, q); } else { OrBitAt(w, p, q); }
  }

  lemma ToggleSetBit(w: bv64, p: Pos)
    requires !HasBit(w, p)
    ensures Toggle(w, p) == w | Bit(p)
  {
  }

  lemma ToggleClearBit(w: bv64, p: Pos)
    requires HasBit(w, p)
    ensures Toggle(w, p) == w & !Bit(p)
  {
  }

  lemma ToggleTwice(w: bv64, p: Pos)
    ensures Toggle(Toggle(w, p), p) == w
  {
    ToggleBack(w, p);
    if HasBit(w, p) {
      AndNotBitAt(w, p, p);
      ToggleClearBit(w, p);
      ToggleSetBit(w & !Bit(p), p);
    } else {
      OrBitSame(w, p);
      ToggleSetBit(w, p);
      ToggleClearBit(w | Bit(p), p);
    }
  }

  lemma OrBitKeep(w: bv64, p: Pos)
    requires HasBit(w, p)
    ensures w | Bit(p) == w
  {
    ToggleBack(w, p);
    OrIdem(w & !Bit(p), Bit(p));
  }

  lemma OrZero(a: bv64, b: bv64)
    ensures b == 0 ==> a | b == a
  {
  }

  lemma OrIdem(a: bv64, b: bv64)
    ensures (a | b) | b == a | b
  {
  }

  lemma AndNotClear(w: bv64, p: Pos)
    requires !HasBit(w, p)
    ensures w & !Bit(p) == w
  {
  }

  lemma ZeroAndNot(b: bv64)
    ensures 0 & !b == 0
    ensures 0 & b == 0
    ensures 0 | b == b
  {
  }

  lemma AndAt(a: bv64, b: bv64, q: Pos)
    ensures HasBit(a & b, q) <==> HasBit(a, q) && HasBit(b, q)
  {
  }

  lemma AndNotAt(a: bv64, b: bv64, q: Pos)
    ensures HasBit(a & !b, q) <==> HasBit(a, q) && !HasBit(b, q)
  {
    assert (a & !b) & Bit(q) == (a & Bit(q)) & !(b & Bit(q));
    if HasBit(b, q) {
      assert b & Bit(q) == Bit(q);
    } else {
      assert (a & Bit(q)) & !0 == a & Bit(q);
    }
  }

  lemma OrAt(a: bv64, b: bv64, q: Pos)
    ensures HasBit(a | b, q) <==> HasBit(a, q) || HasBit(b, q)
  {
    if HasBit(a, q) {
    } else if HasBit(b, q) {
    } else {
      assert (a | b) & Bit(q) == (a & Bit(q)) | (b & Bit(q));
    }
  }

  lemma OrNonZero(a: bv64, b: bv64)
    ensures a | b == 0 <==> a == 0 && b == 0
  {
  }

  /** Removing the bits of `a & b` from `a` is removing the bits of `b`. */
  lemma AndNotIntersection(a: bv64, b: bv64)
    ensures a & !(a & b) == a & !b
    ensures a & b == 0 ==> a & !b == a
    ensures a != 0 && a & !b == 0 ==> a & b != 0
  {
  }

  /** Extending the low mask by one position adds exactly that position. */
  lemma LowMaskStep(w: bv64, i: Pos)
    ensures w & LowMask(i + 1) == 0 <==> w & LowMask(i) == 0 && !HasBit(w, i)
  {
    if i == 63 {
      assert LowMask(64) == LowMask(63) | Bit(63);
    }
  }

  // ---------------------------------------------------------------------
  // Trailing zeros

  /** The lowest set position at or above `i`, or 64 when there is none. */
  function TrailingZerosFrom(w: bv64, i: Index): (r: Index)
    ensures i <= r
    decreases 64 - i
  {
    if i == 64 then 64
    else if HasBit(w, i as Pos) then i
    else TrailingZerosFrom(w, i + 1)
  }

  lemma TrailingZerosFromSkip(w: bv64, i: Index)
    requires i < 64 && !HasBit(w, i as Pos)
    ensures TrailingZerosFrom(w, i) == TrailingZerosFrom(w, i + 1)
  {
  }

  lemma TrailingZerosFromStop(w: bv64, i: Index)
    requires w & LowMask(i) == 0
    requires i == 64 || HasBit(w, i as Pos)
    ensures w & LowMask(TrailingZerosFrom(w, i)) == 0
  {
  }

  lemma LowMaskNext(w: bv64, i: Index)
    requires w & LowMask(i) == 0
    requires i < 64 && !HasBit(w, i as Pos)
    ensures w & LowMask(i + 1) == 0
  {
    LowMaskStep(w, i as Pos);
  }

  /** The scan from `i` skips only clear positions. */
  lemma {:induction false} TrailingZerosFromLow(w: bv64, i: Index)
    requires w & LowMask(i) == 0
    ensures w & LowMask(TrailingZerosFrom(w, i)) == 0
    decreases 64 - i
  {
    if i < 64 && !HasBit(w, i as Pos) {
      LowMaskNext(w, i);
      TrailingZerosFromLow(w, i + 1);
      TrailingZerosFromSkip(w, i);
    } else {
      TrailingZerosFromStop(w, i);
    }
  }

  lemma LowMaskAll(w: bv64)
    ensures w & LowMask(64) == w
    ensures w & LowMask(0) == 0
  {
  }

  /** The scan from `i` stops only at a set position. */
  lemma {:induction false} TrailingZerosFromSet(w: bv64, i: Index)
    ensures TrailingZerosFrom(w, i) < 64 ==> HasBit(w, TrailingZerosFrom(w, i) as Pos)
    decreases 64 - i
  {
    if i < 64 && !HasBit(w, i as Pos) {
      TrailingZerosFromSet(w, i + 1);
    }
  }

  /** `bits.TrailingZeros64`: the position of the lowest set bit, 64 for a zero word. */
  function TrailingZeros(w: bv64): (r: Index)
    ensures r == 64 <==> w == 0
  {
    LowMaskAll(w);
    TrailingZerosFromLow(w, 0);
    TrailingZerosFromSet(w, 0);
    TrailingZerosFrom(w, 0)
  }

  /** The lowest set bit of a non-zero word is set. */
  lemma TrailingZerosSet(w: bv64)
    requires w != 0
    ensures HasBit(w, TrailingZeros(w) as Pos)
  {
    TrailingZerosFromSet(w, 0);
  }

  /** No position below the one `TrailingZerosFrom` stops at, from `i` up, is set. */
  lemma {:induction false} TrailingZerosFromLowest(w: bv64, i: Index, q: Pos)
    requires i <= q && HasBit(w, q)
    ensures TrailingZerosFrom(w, i) <= q
    decreases 64 - i
  {
    if i < q && !HasBit(w, i as Pos) {
      TrailingZerosFromLowest(w, i + 1, q);
    }
  }

  /** `TrailingZeros` finds the lowest set bit. */
  lemma TrailingZerosLowest(w: bv64, q: Pos)
    requires HasBit(w, q)
    ensures TrailingZeros(w) <= q
  {
    TrailingZerosFromLowest(w, 0, q);
  }

  /** A non-zero word has a set bit. */
  lemma NonZeroHasBit(w: bv64) returns (p: Pos)
    requires w != 0
    ensures HasBit(w, p)
  {
    TrailingZerosSet(w);
    p := TrailingZeros(w) as Pos;
  }

  // ---------------------------------------------------------------------
  // Population count

  /** The number of set positions at or above `i`. */
  function PopCountFrom(w: bv64, i: Index): nat
    decreases 64 - i
  {
    if i == 64 then 0
    else (if HasBit(w, i as Pos) then 1 else 0) + PopCountFrom(w, i + 1)
  }

  /** `bits.OnesCount64`: the number of set bits of a word. */
  function PopCount(w: bv64): nat
  {
    PopCountFrom(w, 0)
  }

  lemma {:induction false} PopCountFromZero(w: bv64, i: Index)
    requires w & LowMask(i) == 0
    ensures PopCountFrom(w, i) == 0 <==> w == 0
    decreases 64 - i
  {
    if i < 64 {
      LowMaskStep(w, i as Pos);
      if !HasBit(w, i as Pos) {
        PopCountFromZero(w, i + 1);
      } else {
        assert w != 0;
      }
    }
  }

  /** The popcount of a word is zero exactly when the word is zero. */
  lemma PopCountZero(w: bv64)
    ensures PopCount(w) == 0 <==> w == 0
  {
    PopCountFromZero(w, 0);
  }

  lemma {:induction false} PopCountFromOr(w: bv64, p: Pos, i: Index)
    requires !HasBit(w, p)
    ensures PopCountFrom(w | Bit(p), i) == PopCountFrom(w, i) + (if i <= p then 1 else 0)
    decreases 64 - i
  {
    if i < 64 {
      OrBitAt(w, p, i as Pos);
      PopCountFromOr(w, p, i + 1);
    }
  }

  /** Setting a clear bit adds one to the popcount. */
  lemma PopCountSetBit(w: bv64, p: Pos)
    requires !HasBit(w, p)
    ensures PopCount(w | Bit(p)) == PopCount(w) + 1
  {
    PopCountFromOr(w, p, 0);
  }

  /** Clearing a set bit takes one from the popcount. */
  lemma PopCountClearBit(w: bv64, p: Pos)
    requires HasBit(w, p)
    ensures PopCount(w & !Bit(p)) + 1 == PopCount(w)
  {
    AndNotBitAt(w, p, p);
    ToggleBack(w, p);
    PopCountSetBit(w & !Bit(p), p);
  }

  /** Unsetting a set bit lowers the popcount by one. */
  lemma UnsetCount(w: bv64, p: Pos)
    requires HasBit(w, p)
    ensures PopCount(Unset(w, p)) + 1 == PopCount(w)
  {
    PopCountClearBit(w, p);
  }

  // ---------------------------------------------------------------------
  // Signed view

  /** The int64 value whose two's-complement pattern is `w` (Go's `int64(w)`). */
  function Signed(w: bv64): int
  {
    if w < 0x8000_0000_0000_0000 then w as int else w as int - 0x1_0000_0000_0000_0000
  }

  /** A word with bit 63, the sign bit, set reads as a negative int64. */
  lemma SignedNegative(w: bv64)
    ensures HasBit(w, 63) ==> Signed(w) < 0
  {
  }

  /** A word with the sign bit clear reads as a non-negative int64. */
  lemma SignedNonNegative(w: bv64)
    ensures !HasBit(w, 63) ==> Signed(w) >= 0
  {
  }

  /** The sign bit alone is the smallest int64, and the all-ones word is -1. */
  lemma SignedExamples()
    ensures Signed(Bit(63)) == -0x8000_0000_0000_0000
    ensures Signed(0xFFFF_FFFF_FFFF_FFFF) == -1
  {
  }


}
