/**
 * Natural numbers as bit strings: the arithmetic that the 64-bit operators of
 * C++ denote.  Every operator is defined by recursion on the halves of its
 * operands, and characterised by the bits of its result.
 */
module Bits {
  const TWO32: nat := 0x1_0000_0000
  const TWO64: nat := 0x1_0000_0000_0000_0000

  function Pow2(n: nat): (r: nat)
    ensures r >= 1
  {
    if n == 0 then 1 else 2 * Pow2(n - 1)
  }

  /** Bit number i of a, the least significant bit being number 0. */
  predicate Bit(a: nat, i: nat)
    decreases a, i
  {
    if i == 0 then a % 2 == 1 else Bit(a / 2, i - 1)
  }

  function And(a: nat, b: nat): (r: nat)
    ensures r <= a && r <= b
  {
    if a == 0 || b == 0 then 0
    else (if a % 2 == 1 && b % 2 == 1 then 1 else 0) + 2 * And(a / 2, b / 2)
  }

  function Or(a: nat, b: nat): nat
  {
    if a == 0 && b == 0 then 0
    else (if a % 2 == 1 || b % 2 == 1 then 1 else 0) + 2 * Or(a / 2, b / 2)
  }

  function Xor(a: nat, b: nat): nat
  {
    if a == 0 && b == 0 then 0
    else (if a % 2 != b % 2 then 1 else 0) + 2 * Xor(a / 2, b / 2)
  }

  /** The complement operator of a 64-bit word. */
  function Not64(a: nat): (r: nat)
    requires a < TWO64
  {
    TWO64 - 1 - a
  }

  function Shl(a: nat, n: nat): (r: nat)
    ensures a <= r
    decreases a, n
  {
    if n == 0 then a else 2 * Shl(a, n - 1)
  }

  /** The left shift of a 64-bit word: bits shifted past bit 63 are lost. */
  function Shl64(a: nat, n: nat): (r: nat)
    ensures r < TWO64
  {
    Shl(a, n) % TWO64
  }

  /** The right shift of an unsigned word. */
  function Shr(a: nat, n: nat): (r: nat)
    ensures r <= a
    decreases a, n
  {
    if n == 0 then a else Shr(a / 2, n - 1)
  }

  /** The n lowest bits of a. */
  function Low(a: nat, n: nat): (r: nat)
    ensures r <= a
    decreases a, n
  {
    if n == 0 then 0 else a % 2 + 2 * Low(a / 2, n - 1)
  }

  /** Whether the n lowest bits of x are zero. */
  predicate Aligned(x: nat, n: nat)
    decreases x, n
  {
    n == 0 || (x % 2 == 0 && Aligned(x / 2, n - 1))
  }

  /** The number of one bits. */
  function Ones(a: nat): nat
  {
    if a == 0 then 0 else a % 2 + Ones(a / 2)
  }

  /** The position of the lowest one bit. */
  function Lsb(a: nat): nat
    requires a > 0
  {
    if a % 2 == 1 then 0 else 1 + Lsb(a / 2)
  }

  /** a without bit p, the bits above p moving down by one. */
  function RemoveBit(a: nat, p: nat): nat
    decreases a, p
  {
    if p == 0 then a / 2 else a % 2 + 2 * RemoveBit(a / 2, p - 1)
  }

  /** a with a new bit g at p, the bits from p upwards moving up by one. */
  function InsertBit(a: nat, p: nat, g: bool): nat
    decreases a, p
  {
    if p == 0 then 2 * a + (if g then 1 else 0) else a % 2 + 2 * InsertBit(a / 2, p - 1, g)
  }

  /** a with bit p replaced by g. */
  function SetBit(a: nat, p: nat, g: bool): nat
    decreases a, p
  {
    if p == 0 then 2 * (a / 2) + (if g then 1 else 0) else a % 2 + 2 * SetBit(a / 2, p - 1, g)
  }

  // ----- powers and division -----

  lemma Pow2Values()
    ensures Pow2(8) == 256 && Pow2(32) == TWO32 && Pow2(64) == TWO64
  {
    assert Pow2(4) == 16;
    Pow2Add(4, 4);
    Pow2Add(8, 8);
    Pow2Add(16, 16);
    Pow2Add(32, 32);
  }

  lemma {:induction false} Pow2Add(m: nat, n: nat)
    ensures Pow2(m + n) == Pow2(m) * Pow2(n)
  {
    if m > 0 { Pow2Add(m - 1, n); }
  }

  lemma {:induction false} Pow2Mono(m: nat, n: nat)
    requires m <= n
    ensures Pow2(m) <= Pow2(n)
    ensures m < n ==> Pow2(m) < Pow2(n)
    decreases n
  {
    if m < n { Pow2Mono(m, n - 1); }
  }

  lemma DivUnique(a: nat, d: nat, q: nat, r: nat)
    requires d > 0 && r < d && a == q * d + r
    ensures a / d == q && a % d == r
  {
    var k := a / d - q;
    assert a == (a / d) * d + a % d;
    assert k * d == r - a % d;
    assert k != 0 ==> k * d >= d || k * d + d <= 0;
  }

  /** The quotient and remainder by a power of two, one bit at a time. */
  lemma ModHalf(a: nat, n: nat)
    requires n > 0
    ensures a % Pow2(n) == a % 2 + 2 * ((a / 2) % Pow2(n - 1))
    ensures a / Pow2(n) == (a / 2) / Pow2(n - 1)
  {
    var d := Pow2(n - 1);
    var h := a / 2;
    assert a == (h / d) * (2 * d) + (a % 2 + 2 * (h % d));
    DivUnique(a, 2 * d, h / d, a % 2 + 2 * (h % d));
  }

  lemma {:induction false} LowIsMod(a: nat, n: nat)
    ensures Low(a, n) == a % Pow2(n)
    decreases n
  {
    if n > 0 {
      ModHalf(a, n);
      LowIsMod(a / 2, n - 1);
    }
  }

  lemma {:induction false} LowBound(a: nat, n: nat)
    ensures Low(a, n) < Pow2(n)
    ensures a < Pow2(n) ==> Low(a, n) == a
    decreases n
  {
    if n > 0 { LowBound(a / 2, n - 1); }
  }

  lemma {:induction false} ShrIsDiv(a: nat, n: nat)
    ensures Shr(a, n) == a / Pow2(n)
    decreases n
  {
    if n > 0 {
      ModHalf(a, n);
      ShrIsDiv(a / 2, n - 1);
    }
  }

  lemma {:induction false} ShlIsTimes(a: nat, n: nat)
    ensures Shl(a, n) == a * Pow2(n)
  {
    if n > 0 { ShlIsTimes(a, n - 1); }
  }

  lemma {:induction false} ShrDifference(c: nat, d: nat, n: nat)
    requires c <= d
    ensures Shl(c, n) <= Shl(d, n) && Shr(Shl(d, n) - Shl(c, n), n) == d - c
    decreases n
  {
    if n > 0 { ShrDifference(c, d, n - 1); }
  }

  lemma {:induction false} ShrStep(a: nat, n: nat)
    ensures Shr(a, n + 1) == Shr(a, n) / 2
    decreases n
  {
    if n > 0 { ShrStep(a / 2, n - 1); }
  }

  lemma {:induction false} ShlAdd(a: nat, b: nat, n: nat)
    ensures Shl(a + b, n) == Shl(a, n) + Shl(b, n)
  {
    if n > 0 { ShlAdd(a, b, n - 1); }
  }

  lemma {:induction false} ShlShl(a: nat, m: nat, n: nat)
    ensures Shl(Shl(a, m), n) == Shl(a, m + n)
  {
    if n > 0 { ShlShl(a, m, n - 1); }
  }

  lemma {:induction false} ShrShr(a: nat, m: nat, n: nat)
    ensures Shr(Shr(a, m), n) == Shr(a, m + n)
    decreases m
  {
    if m > 0 { ShrShr(a / 2, m - 1, n); }
  }

  // ----- bits of results -----

  lemma {:induction false} BitsEqual(a: nat, b: nat)
    requires forall i: nat :: Bit(a, i) == Bit(b, i)
    ensures a == b
    decreases a + b
  {
    assert Bit(a, 0) == Bit(b, 0);
    if a != 0 || b != 0 {
      forall i: nat ensures Bit(a / 2, i) == Bit(b / 2, i) {
        assert Bit(a, i + 1) == Bit(b, i + 1);
      }
      BitsEqual(a / 2, b / 2);
    }
  }

  lemma {:induction false} BitZero(i: nat)
    ensures !Bit(0, i)
  {
    if i > 0 { BitZero(i - 1); }
  }

  lemma BitAbove(b: nat, x: nat, i: nat)
    requires b < 2
    ensures Bit(b + 2 * x, i) == if i == 0 then b == 1 else Bit(x, i - 1)
  {
    assert (b + 2 * x) / 2 == x;
  }

  lemma {:induction false} BitBound(a: nat, n: nat, i: nat)
    requires a < Pow2(n) && n <= i
    ensures !Bit(a, i)
  {
    if n == 0 { BitZero(i); } else { BitBound(a / 2, n - 1, i - 1); }
  }

  lemma {:induction false} BoundFromBits(a: nat, n: nat)
    requires forall i: nat :: n <= i ==> !Bit(a, i)
    ensures a < Pow2(n)
    decreases n
  {
    if n == 0 {
      forall i: nat ensures Bit(a, i) == Bit(0, i) { BitZero(i); }
      BitsEqual(a, 0);
    } else {
      forall i: nat | n - 1 <= i ensures !Bit(a / 2, i) {
        assert !Bit(a, i + 1);
      }
      BoundFromBits(a / 2, n - 1);
    }
  }

  lemma {:induction false} BitAnd(a: nat, b: nat, i: nat)
    ensures Bit(And(a, b), i) == (Bit(a, i) && Bit(b, i))
    decreases i
  {
    if a == 0 || b == 0 {
      BitZero(i);
    } else if i > 0 {
      BitAnd(a / 2, b / 2, i - 1);
    }
  }

  lemma {:induction false} BitOr(a: nat, b: nat, i: nat)
    ensures Bit(Or(a, b), i) == (Bit(a, i) || Bit(b, i))
    decreases i
  {
    if a == 0 && b == 0 {
      BitZero(i);
    } else if i > 0 {
      BitOr(a / 2, b / 2, i - 1);
    }
  }

  lemma {:induction false} OrBound(a: nat, b: nat, n: nat)
    requires a < Pow2(n) && b < Pow2(n)
    ensures Or(a, b) < Pow2(n)
  {
    if n > 0 { OrBound(a / 2, b / 2, n - 1); }
  }

  lemma {:induction false} OrZero(a: nat)
    ensures Or(a, 0) == a && Or(0, a) == a
  {
    if a > 0 { OrZero(a / 2); }
  }

  lemma {:induction false} BitXor(a: nat, b: nat, i: nat)
    ensures Bit(Xor(a, b), i) == (Bit(a, i) != Bit(b, i))
    decreases i
  {
    if a == 0 && b == 0 {
      BitZero(i);
    } else if i > 0 {
      BitXor(a / 2, b / 2, i - 1);
    }
  }

  lemma {:induction false} BitComplement(a: nat, n: nat, i: nat)
    requires a < Pow2(n)
    ensures Bit(Pow2(n) - 1 - a, i) == (i < n && !Bit(a, i))
    decreases i
  {
    if n == 0 {
      BitZero(i);
    } else if i > 0 {
      assert (Pow2(n) - 1 - a) / 2 == Pow2(n - 1) - 1 - a / 2;
      BitComplement(a / 2, n - 1, i - 1);
    }
  }

  lemma BitNot(a: nat, i: nat)
    requires a < TWO64
    ensures Bit(Not64(a), i) == (i < 64 && !Bit(a, i))
  {
    Pow2Values();
    BitComplement(a, 64, i);
  }

  lemma BitLowMask(n: nat, i: nat)
    ensures Bit(Pow2(n) - 1, i) == (i < n)
  {
    BitComplement(0, n, i);
    BitZero(i);
  }

  lemma {:induction false} BitShr(a: nat, n: nat, i: nat)
    ensures Bit(Shr(a, n), i) == Bit(a, i + n)
    decreases n
  {
    if n > 0 { BitShr(a / 2, n - 1, i); }
  }

  lemma {:induction false} BitShl(a: nat, n: nat, i: nat)
    ensures Bit(Shl(a, n), i) == (n <= i && Bit(a, i - n))
    decreases n
  {
    if n > 0 && i > 0 { BitShl(a, n - 1, i - 1); }
  }

  lemma {:induction false} BitLow(a: nat, n: nat, i: nat)
    ensures Bit(Low(a, n), i) == (i < n && Bit(a, i))
    decreases n
  {
    if n == 0 {
      BitZero(i);
    } else if i > 0 {
      BitLow(a / 2, n - 1, i - 1);
    }
  }

  lemma BitMod(a: nat, n: nat, m: nat, i: nat)
    requires m == Pow2(n)
    ensures Bit(a % m, i) == (i < n && Bit(a, i))
  {
    LowIsMod(a, n);
    BitLow(a, n, i);
  }

  lemma BitShl64(a: nat, n: nat, i: nat)
    ensures Bit(Shl64(a, n), i) == (n <= i < 64 && Bit(a, i - n))
  {
    Pow2Values();
    BitMod(Shl(a, n), 64, TWO64, i);
    BitShl(a, n, i);
  }

  lemma {:induction false} BitRemove(a: nat, p: nat, i: nat)
    ensures Bit(RemoveBit(a, p), i) == (if i < p then Bit(a, i) else Bit(a, i + 1))
    decreases p
  {
    if p > 0 && i > 0 { BitRemove(a / 2, p - 1, i - 1); }
  }

  lemma {:induction false} BitInsert(a: nat, p: nat, g: bool, i: nat)
    ensures Bit(InsertBit(a, p, g), i) == (if i < p then Bit(a, i) else if i == p then g else Bit(a, i - 1))
    decreases p
  {
    if p > 0 && i > 0 { BitInsert(a / 2, p - 1, g, i - 1); }
  }

  lemma {:induction false} BitSet(a: nat, p: nat, g: bool, i: nat)
    ensures Bit(SetBit(a, p, g), i) == (if i == p then g else Bit(a, i))
    decreases p
  {
    if p > 0 && i > 0 { BitSet(a / 2, p - 1, g, i - 1); }
  }

  // ----- parities -----

  /** Whether an odd number of the bits of a selected by m are one. */
  predicate Parity(a: nat, m: nat)
  {
    Ones(And(a, m)) % 2 == 1
  }

  lemma ParityStep(a: nat, m: nat)
    ensures Parity(a, m) == ((a % 2 == 1 && m % 2 == 1) != Parity(a / 2, m / 2))
  {
  }

  lemma {:induction false} LsbBits(a: nat, i: nat)
    requires a > 0
    ensures i < Lsb(a) ==> !Bit(a, i)
    ensures i == Lsb(a) ==> Bit(a, i)
    decreases i
  {
    if a % 2 == 0 && i > 0 { LsbBits(a / 2, i - 1); }
  }

  lemma {:induction false} BitIsShrOdd(a: nat, i: nat)
    ensures Bit(a, i) == (Shr(a, i) % 2 == 1)
  {
    BitShr(a, i, 0);
  }

  lemma LsbUnique(a: nat, l: nat)
    requires Bit(a, l) && (forall i :: 0 <= i < l ==> !Bit(a, i))
    ensures a > 0 && Lsb(a) == l
  {
    if a == 0 { BitZero(l); }
    LsbBits(a, l);
    LsbBits(a, Lsb(a));
  }

  lemma LsbBound(a: nat, n: nat)
    requires 0 < a < Pow2(n)
    ensures Lsb(a) < n
  {
    LsbBits(a, Lsb(a));
    if n <= Lsb(a) { BitBound(a, n, Lsb(a)); }
  }

  /** Changing a bit that m does not select leaves the parity alone. */
  lemma {:induction false} ParitySetOutside(a: nat, m: nat, p: nat, g: bool)
    requires !Bit(m, p)
    ensures Parity(SetBit(a, p, g), m) == Parity(a, m)
    decreases p
  {
    SetBitHalf(a, p, g);
    ParityStep(a, m);
    ParityStep(SetBit(a, p, g), m);
    if p > 0 { ParitySetOutside(a / 2, m / 2, p - 1, g); }
  }

  /** Writing a bit that m selects makes the parity that of the other bits plus it. */
  lemma {:induction false} ParitySetInside(a: nat, m: nat, p: nat, g: bool)
    requires Bit(m, p)
    ensures Parity(SetBit(a, p, g), m) == (g != Parity(a, SetBit(m, p, false)))
    decreases p
  {
    var b, n := SetBit(a, p, g), SetBit(m, p, false);
    SetBitHalf(a, p, g);
    SetBitHalf(m, p, false);
    ParityStep(a, n);
    ParityStep(b, m);
    if p > 0 { ParitySetInside(a / 2, m / 2, p - 1, g); }
  }

  lemma {:induction false} OnesBound(a: nat, n: nat)
    requires a < Pow2(n)
    ensures Ones(a) <= n
  {
    if a > 0 { OnesBound(a / 2, n - 1); }
  }

  lemma {:induction false} XorBound(a: nat, b: nat)
    ensures Xor(a, b) <= a + b
    decreases a + b
  {
    if a != 0 || b != 0 { XorBound(a / 2, b / 2); }
  }

  lemma {:induction false} BitPow2(n: nat, i: nat)
    ensures Bit(Pow2(n), i) == (i == n)
  {
    if n > 0 && i > 0 { BitPow2(n - 1, i - 1); } else if i > 0 { BitBound(1, 1, i); }
  }

  lemma SetBitHalf(a: nat, p: nat, g: bool)
    ensures p > 0 ==> SetBit(a, p, g) / 2 == SetBit(a / 2, p - 1, g) && SetBit(a, p, g) % 2 == a % 2
    ensures p == 0 ==> SetBit(a, p, g) / 2 == a / 2
  {
  }

  lemma RemoveBitAbove(b: nat, c: nat, k: nat)
    requires b < 2 && k > 0
    ensures RemoveBit(b + 2 * c, k) == b + 2 * RemoveBit(c, k - 1)
  {
    assert (b + 2 * c) / 2 == c && (b + 2 * c) % 2 == b;
  }

  lemma InsertBitHalf(a: nat, p: nat, g: bool)
    ensures p > 0 ==> InsertBit(a, p, g) / 2 == InsertBit(a / 2, p - 1, g) && InsertBit(a, p, g) % 2 == a % 2
    ensures p == 0 ==> InsertBit(a, p, g) / 2 == a
  {
  }
}
