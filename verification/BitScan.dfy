/** The searches for set bits and the rounding to a power of two of base/bitfield.hh. */
module BitScan {
  import opened Bits
  import opened Bitfield

  lemma AndMask(a: Word, n: Unsigned)
    ensures And(a, Mask(n)) == Low(a, n)
  {
    forall i: nat ensures Bit(And(a, Mask(n)), i) == Bit(Low(a, n), i) {
      BitAnd(a, Mask(n), i);
      MaskBits(n, i);
      BitLow(a, n, i);
      if i >= 64 {
        Pow2Values();
        BitBound(a, 64, i);
      }
    }
    BitsEqual(And(a, Mask(n)), Low(a, n));
  }

  /** The field of n bits from position l. */
  lemma BitRangeIsField(a: Word, l: nat, n: nat)
    requires 0 < n <= 64 && l < 64
    ensures BitRange(a, l + n - 1, l) == Low(Shr(a, l), n)
  {
    AndMask(Shr(a, l), n);
  }

  lemma {:induction false} ShrBound(a: nat, m: nat, n: nat)
    requires a < Pow2(m + n)
    ensures Shr(a, m) < Pow2(n)
    decreases m
  {
    if m > 0 { ShrBound(a / 2, m - 1, n); }
  }

  lemma {:induction false} ShrPositive(a: nat, n: nat)
    ensures Shr(a, n) > 0 <==> a >= Pow2(n)
    decreases n
  {
    if n > 0 { ShrPositive(a / 2, n - 1); }
  }

  // ----- findMsbSet -----

  /** val, at most 2h bits long, is what is left of orig above bit msb. */
  lemma MsbStage(orig: Word, val: Word, msb: nat, h: nat)
    requires 0 < h <= 32 && val < Pow2(h + h) && val == Shr(orig, msb) && val > 0
    ensures BitRange(val, h + h - 1, h) != 0 ==>
              var v := Shr(val, h); v == Shr(orig, msb + h) && 0 < v < Pow2(h)
    ensures BitRange(val, h + h - 1, h) == 0 ==> val < Pow2(h)
  {
    BitRangeIsField(val, h, h);
    ShrBound(val, h, h);
    LowBound(Shr(val, h), h);
    ShrPositive(val, h);
    ShrShr(orig, msb, h);
  }

  lemma {:induction false} TopBit(a: nat, n: nat)
    requires Shr(a, n) == 1
    ensures Pow2(n) <= a < Pow2(n + 1)
    decreases n
  {
    if n > 0 { TopBit(a / 2, n - 1); }
  }

  /** One test of findMsbSet(): is there a one among the h upper bits of val? */
  method MsbTest(ghost orig: Word, val: Word, msb: nat, h: nat) returns (val': Word, msb': nat)
    requires 0 < h <= 32 && 0 < val < Pow2(h + h) && val == Shr(orig, msb)
    ensures 0 < val' < Pow2(h) && val' == Shr(orig, msb')
  {
    MsbStage(orig, val, msb, h);
    val', msb' := val, msb;
    if BitRange(val, h + h - 1, h) != 0 {
      msb' := msb + h;
      val' := Shr(val, h);
    }
  }

  /** The position of the highest one bit; 0 for zero. */
  method FindMsbSet(orig: Word) returns (msb: nat)
    ensures orig == 0 ==> msb == 0
    ensures orig > 0 ==> Pow2(msb) <= orig < Pow2(msb + 1)
  {
    var val := orig;
    msb := 0;
    if val == 0 {
      return 0;
    }
    Pow2Values();
    val, msb := MsbTest(orig, val, msb, 32);
    val, msb := MsbTest(orig, val, msb, 16);
    val, msb := MsbTest(orig, val, msb, 8);
    val, msb := MsbTest(orig, val, msb, 4);
    val, msb := MsbTest(orig, val, msb, 2);
    val, msb := MsbTest(orig, val, msb, 1);
    TopBit(orig, msb);
  }

  // ----- findLsbSet -----

  lemma {:induction false} LowSplit(a: nat, m: nat, n: nat)
    ensures Low(a, m) == 0 ==> (Low(a, m + n) == 0 <==> Low(Shr(a, m), n) == 0)
    decreases m
  {
    if m > 0 { LowSplit(a / 2, m - 1, n); }
  }

  /** One test of findLsbSet(): are the h lower bits of val all zero? */
  method LsbTest(ghost orig: Word, val: Word, lsb: nat, h: nat) returns (val': Word, lsb': nat)
    requires 0 < h <= 32 && Low(val, h + h) != 0 && val == Shr(orig, lsb) && Low(orig, lsb) == 0
    ensures Low(val', h) != 0 && val' == Shr(orig, lsb') && Low(orig, lsb') == 0
  {
    BitRangeIsField(val, 0, h);
    val', lsb' := val, lsb;
    if BitRange(val, h - 1, 0) == 0 {
      LowSplit(val, h, h);
      LowSplit(orig, lsb, h);
      ShrShr(orig, lsb, h);
      lsb' := lsb + h;
      val' := Shr(val, h);
    }
  }

  lemma FirstOne(a: nat, n: nat)
    requires Low(a, n) == 0 && Shr(a, n) % 2 == 1
    ensures a > 0 && Lsb(a) == n
  {
    BitIsShrOdd(a, n);
    forall i | 0 <= i < n ensures !Bit(a, i) {
      BitLow(a, n, i);
      BitZero(i);
    }
    LsbUnique(a, n);
  }

  /** findLsbSet() counts the trailing zeros, as ctz64() does; 64 for zero. */
  method FindLsbSet(orig: Word) returns (lsb: nat)
    ensures lsb == Ctz64(orig)
  {
    var val := orig;
    lsb := 0;
    if val == 0 {
      return 64;
    }
    WholeLow(val);
    val, lsb := LsbTest(orig, val, lsb, 32);
    val, lsb := LsbTest(orig, val, lsb, 16);
    val, lsb := LsbTest(orig, val, lsb, 8);
    val, lsb := LsbTest(orig, val, lsb, 4);
    val, lsb := LsbTest(orig, val, lsb, 2);
    val, lsb := LsbTest(orig, val, lsb, 1);
    FirstOne(orig, lsb);
  }

  lemma WholeLow(a: Word)
    ensures Low(a, 32 + 32) == a
  {
    LowWhole(a, 64);
  }

  // ----- alignToPowerOfTwo -----

  /** The number of bits that v needs. */
  function BitLength(v: nat): (n: nat)
    ensures v < Pow2(n) && (v > 0 ==> n > 0 && Pow2(n - 1) <= v)
  {
    if v == 0 then 0 else 1 + BitLength(v / 2)
  }

  /** Some bit of v at a position in [i, i + w) is one. */
  ghost predicate OneIn(v: nat, i: nat, w: nat)
  {
    exists j :: i <= j < i + w && Bit(v, j)
  }

  /** x has a one wherever v has one within the next w positions. */
  ghost predicate Smeared(v: nat, x: nat, w: nat)
  {
    forall i: nat :: Bit(x, i) <==> OneIn(v, i, w)
  }

  lemma SmearStep(v: nat, x: nat, w: nat)
    requires Smeared(v, x, w)
    ensures Smeared(v, Or(x, Shr(x, w)), w + w)
  {
    forall i: nat ensures Bit(Or(x, Shr(x, w)), i) <==> OneIn(v, i, w + w) {
      BitOr(x, Shr(x, w), i);
      BitShr(x, w, i);
      assert Bit(x, i) <==> OneIn(v, i, w);
      assert Bit(x, i + w) <==> OneIn(v, i + w, w);
    }
  }

  lemma {:induction false} TopBitSet(v: nat)
    requires v > 0
    ensures Bit(v, BitLength(v) - 1)
  {
    if v > 1 { TopBitSet(v / 2); }
  }

  /** Smeared over the whole word, every bit below the highest one is one. */
  lemma SmearAll(v: Word, x: nat, w: nat)
    requires Smeared(v, x, w) && w >= 64
    ensures x == Pow2(BitLength(v)) - 1
  {
    var n := BitLength(v);
    LengthBound(v);
    forall i: nat ensures Bit(x, i) == Bit(Pow2(n) - 1, i) {
      BitLowMask(n, i);
      assert Bit(x, i) <==> OneIn(v, i, w);
      if i < n {
        TopBitSet(v);
        assert Bit(v, n - 1);
      } else {
        forall j | i <= j < i + w ensures !Bit(v, j) { BitBound(v, n, j); }
      }
    }
    BitsEqual(x, Pow2(n) - 1);
  }

  lemma LengthBound(v: Word)
    ensures BitLength(v) <= 64
  {
    Pow2Values();
    if BitLength(v) > 64 { Pow2Mono(64, BitLength(v) - 1); }
  }

  /** One step of the smearing: every one bit is copied w places down. */
  method Smear(ghost v: Word, x: Word, w: nat) returns (x': Word)
    requires Smeared(v, x, w)
    ensures Smeared(v, x', w + w)
  {
    SmearStep(v, x, w);
    OrWord(x, Shr(x, w));
    x' := Or(x, Shr(x, w));
  }

  /** The six steps between the decrement and the increment. */
  method FillBelow(v: Word) returns (x: Word)
    ensures x == Pow2(BitLength(v)) - 1
  {
    forall i: nat ensures Bit(v, i) <==> OneIn(v, i, 1) {}
    x := Smear(v, v, 1);
    x := Smear(v, x, 2);
    x := Smear(v, x, 4);
    x := Smear(v, x, 8);
    x := Smear(v, x, 16);
    x := Smear(v, x, 32);
    SmearAll(v, x, 64);
  }

  lemma LongWord(v: Word)
    ensures BitLength(v) <= 64
    ensures BitLength(v) == 64 <==> v >= TWO64 / 2
  {
    LengthBound(v);
    Pow2Values();
    if BitLength(v) < 64 { Pow2Mono(BitLength(v), 63); }
  }

  /** r is a power of two, and the least one that is not below val. */
  ghost predicate LeastPowerAbove(r: nat, val: nat)
  {
    exists n: nat :: r == Pow2(n) && val <= r && (n > 0 ==> Pow2(n - 1) < val)
  }

  /** The least power of two at or above val; 0 for 0 and for values that have none in 64 bits. */
  method AlignToPowerOfTwo(val: Word) returns (r: Word)
    ensures 0 < val <= TWO64 / 2 ==> LeastPowerAbove(r, val)
    ensures val == 0 || val > TWO64 / 2 ==> r == 0
  {
    var v: Word := if val == 0 then TWO64 - 1 else val - 1;
    var x := FillBelow(v);
    r := if x == TWO64 - 1 then 0 else x + 1;
    ghost var n := BitLength(v);
    LongWord(v);
    Pow2Values();
    if n < 64 { Pow2Mono(n, 64); }
    assert 0 < val && n < 64 ==> r == Pow2(n) && val <= r && (n > 0 ==> Pow2(n - 1) < val);
  }
}
