/**
 * The bit-field operations of base/bitfield.hh on 64-bit words, and what each
 * one does to the bits of its operands.
 */
module Bitfield {
  import opened Bits

  type Word = x: nat | x < TWO64
  type Unsigned = x: nat | x < TWO32
  type Byte = x: nat | x < 256

  /** Addition of 64-bit words. */
  function Add64(a: Word, b: Word): (r: Word)
    ensures a + b < TWO64 ==> r == a + b
  {
    (a + b) % TWO64
  }

  /** A mask of nbits ones, right justified. */
  function Mask(nbits: Unsigned): (r: Word)
  {
    Pow2Values();
    if nbits >= 64 then TWO64 - 1 else (Pow2Mono(nbits, 64); Pow2(nbits) - 1)
  }

  /** The mask of the bits last..first; the increment of first is that of an unsigned. */
  function MaskRange(first: Unsigned, last: Unsigned): (r: Word)
  {
    And(TWO64 - 1, And(Mask((first + 1) % TWO32), Not64(Mask(last))))
  }

  /** The bits last..first of val, right justified. */
  function BitRange(val: Word, first: Unsigned, last: Unsigned): (r: Word)
    requires last <= first && last < 64
  {
    And(Shr(val, last), Mask((first - last + 1) % TWO32))
  }

  /** val with its bits last..first taken from the low bits of bitVal. */
  function InsertBits(val: Word, first: Unsigned, last: Unsigned, bitVal: Word): (r: Word)
    requires last <= first && last < 64
    ensures forall i: nat :: Bit(r, i) ==
                             if last <= i <= first && i < 64 && first + 1 < TWO32 then Bit(bitVal, i - last) else Bit(val, i)
  {
    var bmask := MaskRange(first, last);
    var r := Or(And(val, Not64(bmask)), And(Shl64(bitVal, last), bmask));
    assert r < TWO64 && forall i: nat :: Bit(r, i) ==
                                         if last <= i <= first && i < 64 && first + 1 < TWO32 then Bit(bitVal, i - last) else Bit(val, i) by {
      InsertedBits(val, first, last, bitVal);
    }
    r
  }

  /** Count trailing zeros; 64 for zero. */
  function Ctz64(value: Word): (r: nat)
    ensures r <= 64 && (r == 64 <==> value == 0)
  {
    Pow2Values();
    if value == 0 then 64 else (LsbBound(value, 64); Lsb(value))
  }

  lemma LowWhole(a: Word, n: nat)
    requires n >= 64
    ensures Low(a, n) == a
  {
    Pow2Values();
    Pow2Mono(64, n);
    LowBound(a, n);
  }

  lemma OrWord(a: Word, b: Word)
    ensures Or(a, b) < TWO64
  {
    Pow2Values();
    OrBound(a, b, 64);
  }

  lemma MaskBits(nbits: Unsigned, i: nat)
    ensures Bit(Mask(nbits), i) == (i < nbits && i < 64)
  {
    Pow2Values();
    BitLowMask(if nbits >= 64 then 64 else nbits, i);
  }

  lemma MaskRangeBits(first: Unsigned, last: Unsigned, i: nat)
    requires last <= first && last < 64
    ensures Bit(MaskRange(first, last), i) == (last <= i <= first && i < 64 && first + 1 < TWO32)
  {
    var up := (first + 1) % TWO32;
    var low := Mask(last);
    BitAnd(TWO64 - 1, And(Mask(up), Not64(low)), i);
    BitAnd(Mask(up), Not64(low), i);
    BitNot(low, i);
    BitNot(0, i);
    BitZero(i);
    MaskBits(up, i);
    MaskBits(last, i);
  }

  lemma InsertedBits(val: Word, first: Unsigned, last: Unsigned, bitVal: Word)
    requires last <= first && last < 64
    ensures var bmask := MaskRange(first, last);
            var r := Or(And(val, Not64(bmask)), And(Shl64(bitVal, last), bmask));
            r < TWO64 &&
            forall i: nat :: Bit(r, i) ==
                             if last <= i <= first && i < 64 && first + 1 < TWO32 then Bit(bitVal, i - last) else Bit(val, i)
  {
    var bmask := MaskRange(first, last);
    var kept, put := And(val, Not64(bmask)), And(Shl64(bitVal, last), bmask);
    Pow2Values();
    forall i: nat
      ensures Bit(Or(kept, put), i) ==
              if last <= i <= first && i < 64 && first + 1 < TWO32 then Bit(bitVal, i - last) else Bit(val, i)
    {
      BitOr(kept, put, i);
      BitAnd(val, Not64(bmask), i);
      BitAnd(Shl64(bitVal, last), bmask, i);
      BitNot(bmask, i);
      BitShl64(bitVal, last, i);
      MaskRangeBits(first, last, i);
      if i >= 64 { BitBound(val, 64, i); }
    }
    forall i: nat | 64 <= i ensures !Bit(Or(kept, put), i) { BitBound(val, 64, i); }
    BoundFromBits(Or(kept, put), 64);
  }

  /**
   * The step of removeIntlvBits.  When p is 0 the field's upper end wraps to the
   * largest unsigned, its mask to nothing, and the step is a plain shift.
   */
  lemma InsertBitsRemoves(a: Word, p: nat, first: Unsigned)
    requires p < 64 && first == if p == 0 then TWO32 - 1 else p - 1
    ensures InsertBits(Shr(a, 1), first, 0, a) == RemoveBit(a, p)
  {
    var r := InsertBits(Shr(a, 1), first, 0, a);
    Pow2Values();
    forall i: nat ensures Bit(r, i) == Bit(RemoveBit(a, p), i) {
      BitRemove(a, p, i);
      BitShr(a, 1, i);
      if i >= 63 { BitBound(a, 64, i + 1); }
    }
    BitsEqual(r, RemoveBit(a, p));
  }

  /** When the field covers the whole word, the step of removeIntlvBits changes nothing. */
  lemma InsertBitsKeeps(a: Word, first: Unsigned)
    requires 63 <= first < TWO32 - 1
    ensures InsertBits(Shr(a, 1), first, 0, a) == a
  {
    var r := InsertBits(Shr(a, 1), first, 0, a);
    Pow2Values();
    forall i: nat ensures Bit(r, i) == Bit(a, i) {
      if i >= 64 {
        BitBound(r, 64, i);
        BitBound(a, 64, i);
      }
    }
    BitsEqual(r, a);
  }

  /**
   * The step of addIntlvBits on the n low bits: the new bit p repeats the bit
   * below it.  Bits shifted past bit 63 do not matter to them.
   */
  lemma InsertBitsAdds(a: Word, p: nat, n: nat)
    requires 0 < p <= n < 64
    ensures Low(InsertBits(Shl64(a, 1), p - 1, 0, a), n + 1) ==
            InsertBit(Low(a, n), p, Bit(Low(a, n), p - 1))
  {
    var r := InsertBits(Shl64(a, 1), p - 1, 0, a);
    var low := Low(a, n);
    var s := InsertBit(low, p, Bit(low, p - 1));
    forall i: nat ensures Bit(Low(r, n + 1), i) == Bit(s, i) {
      BitLow(r, n + 1, i);
      BitInsert(low, p, Bit(low, p - 1), i);
      BitShl64(a, 1, i);
      BitLow(a, n, i);
      BitLow(a, n, p - 1);
      if i > 0 { BitLow(a, n, i - 1); }
    }
    BitsEqual(Low(r, n + 1), s);
  }

  lemma ShiftAdds(a: Word, n: nat)
    requires n < 64
    ensures Low(Shl64(a, 1), n + 1) == InsertBit(Low(a, n), 0, false)
  {
    var r := Shl64(a, 1);
    var s := InsertBit(Low(a, n), 0, false);
    forall i: nat ensures Bit(Low(r, n + 1), i) == Bit(s, i) {
      BitLow(r, n + 1, i);
      BitInsert(Low(a, n), 0, false, i);
      BitShl64(a, 1, i);
      if i > 0 { BitLow(a, n, i - 1); }
    }
    BitsEqual(Low(r, n + 1), s);
  }

  lemma InsertBitsSets(a: Word, p: nat, v: Word)
    requires p < 64
    ensures InsertBits(a, p, p, v) == SetBit(a, p, v % 2 == 1)
  {
    var r := InsertBits(a, p, p, v);
    forall i: nat ensures Bit(r, i) == Bit(SetBit(a, p, v % 2 == 1), i) {
      BitSet(a, p, v % 2 == 1, i);
    }
    BitsEqual(r, SetBit(a, p, v % 2 == 1));
  }
}
