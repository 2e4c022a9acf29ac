/**
 * The portable popCount() of base/bitfield.hh, which adds up bits in parallel:
 * in pairs, in nibbles, in bytes and then over the word.
 */
module PopCount {
  import opened Bits
  import opened Bitfield

  const M1: Word := 0x5555_5555_5555_5555
  const M2: Word := 0x3333_3333_3333_3333
  const M4: Word := 0x0f0f_0f0f_0f0f_0f0f
  const SUM: Word := 0x0101_0101_0101_0101

  // ----- masks of equal digits -----

  /** n digits of w bits, in each of which the j lowest bits are one. */
  function Repeat(n: nat, w: nat, j: nat): nat
  {
    if n == 0 then 0 else Shl(Repeat(n - 1, w, j), w) + (Pow2(j) - 1)
  }

  /** The j lowest bits of each of the n digits of w bits of a. */
  function Keep(a: nat, n: nat, w: nat, j: nat): nat
    decreases a, n
  {
    if n == 0 then 0 else Shl(Keep(Shr(a, w), n - 1, w, j), w) + Low(a, j)
  }

  /** The bits of a digit of w bits, at most j of them used, with more digits above it. */
  lemma {:induction false} BitOfDigit(r: nat, w: nat, z: nat, j: nat, i: nat)
    requires z < Pow2(j) && j <= w
    ensures Bit(Shl(r, w) + z, i) == if i < w then Bit(z, i) else Bit(r, i - w)
    decreases w
  {
    if w > 0 {
      assert (Shl(r, w) + z) / 2 == Shl(r, w - 1) + z / 2 && (Shl(r, w) + z) % 2 == z % 2;
      if i > 0 { BitOfDigit(r, w - 1, z / 2, if j == 0 then 0 else j - 1, i - 1); }
    }
  }

  lemma {:induction false} AndRepeat(a: nat, n: nat, w: nat, j: nat, i: nat)
    requires j <= w && 0 < w
    ensures Bit(Keep(a, n, w, j), i) == (Bit(a, i) && Bit(Repeat(n, w, j), i))
    decreases n
  {
    if n == 0 {
      BitZero(i);
    } else {
      LowBound(a, j);
      BitOfDigit(Keep(Shr(a, w), n - 1, w, j), w, Low(a, j), j, i);
      BitOfDigit(Repeat(n - 1, w, j), w, Pow2(j) - 1, j, i);
      BitLow(a, j, i);
      BitLowMask(j, i);
      if i >= w {
        AndRepeat(Shr(a, w), n - 1, w, j, i - w);
        BitShr(a, w, i - w);
      }
    }
  }

  lemma AndIsKeep(a: nat, n: nat, w: nat, j: nat)
    requires j <= w && 0 < w
    ensures And(a, Repeat(n, w, j)) == Keep(a, n, w, j)
  {
    forall i: nat ensures Bit(And(a, Repeat(n, w, j)), i) == Bit(Keep(a, n, w, j), i) {
      BitAnd(a, Repeat(n, w, j), i);
      AndRepeat(a, n, w, j, i);
    }
    BitsEqual(And(a, Repeat(n, w, j)), Keep(a, n, w, j));
  }

  lemma {:induction false} RepeatValues(n: nat)
    ensures 3 * Repeat(n, 2, 1) == Pow2(2 * n) - 1
    ensures 5 * Repeat(n, 4, 2) == Pow2(4 * n) - 1
    ensures 17 * Repeat(n, 8, 4) == Pow2(8 * n) - 1
  {
    if n > 0 {
      RepeatValues(n - 1);
      Shifts(Repeat(n - 1, 2, 1), Repeat(n - 1, 4, 2), Repeat(n - 1, 8, 4));
      Pow2Add(2, 2 * (n - 1));
      Pow2Add(4, 4 * (n - 1));
      Pow2Add(8, 8 * (n - 1));
    }
  }

  lemma Shifts(a: nat, b: nat, c: nat)
    ensures Shl(a, 2) == 4 * a && Shl(b, 4) == 16 * b && Shl(c, 8) == 256 * c
    ensures Pow2(1) == 2 && Pow2(2) == 4 && Pow2(4) == 16 && Pow2(8) == 256
  {
    Pow2Values();
    ShlIsTimes(a, 2);
    ShlIsTimes(b, 4);
    ShlIsTimes(c, 8);
    assert Pow2(4) == 16;
  }

  /** Masking by alternating bits. */
  lemma KeepOnes(a: nat, n: nat, m: nat)
    requires 3 * m + 1 == Pow2(2 * n)
    ensures And(a, m) == Keep(a, n, 2, 1)
  {
    RepeatValues(n);
    AndIsKeep(a, n, 2, 1);
  }

  /** Masking by alternating pairs. */
  lemma KeepPairs(a: nat, n: nat, m: nat)
    requires 5 * m + 1 == Pow2(4 * n)
    ensures And(a, m) == Keep(a, n, 4, 2)
  {
    RepeatValues(n);
    AndIsKeep(a, n, 4, 2);
  }

  /** Masking by alternating nibbles. */
  lemma KeepNibbles(a: nat, n: nat, m: nat)
    requires 17 * m + 1 == Pow2(8 * n)
    ensures And(a, m) == Keep(a, n, 8, 4)
  {
    RepeatValues(n);
    AndIsKeep(a, n, 8, 4);
  }

  // ----- numbers as lists of digits -----

  /** x has n digits of w bits, each at most max; s is their sum. */
  predicate Digits(x: nat, n: nat, w: nat, max: nat, s: int)
    decreases x, n
  {
    if n == 0 then x == 0 && s == 0 else Low(x, w) <= max && Digits(Shr(x, w), n - 1, w, max, s - Low(x, w))
  }

  lemma {:induction false} DigitOn(r: nat, z: nat, w: nat)
    requires z < Pow2(w)
    ensures Low(Shl(r, w) + z, w) == z && Shr(Shl(r, w) + z, w) == r
    decreases w
  {
    if w > 0 {
      assert (Shl(r, w) + z) / 2 == Shl(r, w - 1) + z / 2 && (Shl(r, w) + z) % 2 == z % 2;
      DigitOn(r, z / 2, w - 1);
    }
  }

  lemma DigitsBuild(r: nat, z: nat, n: nat, w: nat, max: nat, s: int)
    requires n > 0 && z <= max < Pow2(w) && Digits(r, n - 1, w, max, s - z)
    ensures Digits(Shl(r, w) + z, n, w, max, s)
  {
    DigitOn(r, z, w);
  }

  /** A digit and the one above it. */
  lemma TwoDigits(x: nat, n: nat, w: nat, max: nat, s: int)
    requires n >= 2 && Digits(x, n, w, max, s)
    ensures Low(x, w) <= max && Low(Shr(x, w), w) <= max
    ensures Digits(Shr(x, w + w), n - 2, w, max, s - Low(x, w) - Low(Shr(x, w), w))
  {
    assert Digits(Shr(x, w), n - 1, w, max, s - Low(x, w));
    ShrShr(x, w, w);
  }

  lemma FoldParts(u: nat, n: nat, w: nat)
    requires n > 0 && w > 0
    ensures var v := Shr(u, w + w);
            Keep(u, n, w + w, w) + Keep(Shr(u, w), n, w + w, w) ==
            Shl(Keep(v, n - 1, w + w, w) + Keep(Shr(v, w), n - 1, w + w, w), w + w) + (Low(u, w) + Low(Shr(u, w), w))
  {
    var v := Shr(u, w + w);
    ShrShr(u, w, w + w);
    ShrShr(u, w + w, w);
    ShlAdd(Keep(v, n - 1, w + w, w), Keep(Shr(v, w), n - 1, w + w, w), w + w);
  }

  /** Adding neighbouring digits halves their number and keeps their sum. */
  lemma {:induction false} FoldDigits(u: nat, n: nat, w: nat, max: nat, s: int)
    requires w > 0 && Digits(u, 2 * n, w, max, s) && 2 * max < Pow2(w + w)
    ensures Digits(Keep(u, n, w + w, w) + Keep(Shr(u, w), n, w + w, w), n, w + w, 2 * max, s)
    decreases n
  {
    if n > 0 {
      TwoDigits(u, 2 * n, w, max, s);
      FoldDigits(Shr(u, w + w), n - 1, w, max, s - (Low(u, w) + Low(Shr(u, w), w)));
      FoldStep(u, n, w, 2 * max, s);
    }
  }

  lemma FoldStep(u: nat, n: nat, w: nat, max: nat, s: int)
    requires n > 0 && w > 0 && Low(u, w) + Low(Shr(u, w), w) <= max < Pow2(w + w)
    requires var v := Shr(u, w + w);
             Digits(Keep(v, n - 1, w + w, w) + Keep(Shr(v, w), n - 1, w + w, w), n - 1, w + w, max, s - (Low(u, w) + Low(Shr(u, w), w)))
    ensures Digits(Keep(u, n, w + w, w) + Keep(Shr(u, w), n, w + w, w), n, w + w, max, s)
  {
    var v, d := Shr(u, w + w), Low(u, w) + Low(Shr(u, w), w);
    DigitsBuild(Keep(v, n - 1, w + w, w) + Keep(Shr(v, w), n - 1, w + w, w), d, n, w + w, max, s);
    FoldParts(u, n, w);
  }

  // ----- the three steps -----

  /** Subtracting the upper bit of each pair leaves the number of ones in the pair. */
  lemma QuarterFits(v: nat, m: nat)
    requires v < Pow2(m + 2)
    ensures v / 4 < Pow2(m)
  {
    assert Pow2(m + 2) == 2 * Pow2(m + 1);
  }

  lemma {:induction false} PairStep(v: nat, n: nat)
    requires v < Pow2(2 * n)
    ensures Keep(Shr(v, 1), n, 2, 1) <= v && Digits(v - Keep(Shr(v, 1), n, 2, 1), n, 2, 2, Ones(v))
    decreases n
  {
    if n > 0 {
      QuarterFits(v, 2 * (n - 1));
      PairStep(v / 4, n - 1);
      PairParts(v, n);
      PairBuild(v / 4 - Keep(Shr(v / 4, 1), n - 1, 2, 1), n, v);
    }
  }

  lemma PairBuild(r: nat, n: nat, v: nat)
    requires n > 0 && Digits(r, n - 1, 2, 2, Ones(v / 4))
    ensures Digits(4 * r + (v % 2 + (v / 2) % 2), n, 2, 2, Ones(v))
  {
    var d := v % 2 + (v / 2) % 2;
    assert Ones(v) == d + Ones(v / 4) by {
      assert Ones(v) == v % 2 + Ones(v / 2) && Ones(v / 2) == (v / 2) % 2 + Ones(v / 2 / 2);
      assert v / 2 / 2 == v / 4;
    }
    Shifts(r, 0, 0);
    DigitsBuild(r, d, n, 2, 2, Ones(v));
  }

  lemma PairParts(v: nat, n: nat)
    requires n > 0 && Keep(Shr(v / 4, 1), n - 1, 2, 1) <= v / 4
    ensures Keep(Shr(v, 1), n, 2, 1) <= v
    ensures v - Keep(Shr(v, 1), n, 2, 1) == 4 * (v / 4 - Keep(Shr(v / 4, 1), n - 1, 2, 1)) + (v % 2 + (v / 2) % 2)
  {
    UpperBits(v, n);
    FourParts(v);
  }

  lemma FourParts(v: nat)
    ensures v == 4 * (v / 4) + 2 * ((v / 2) % 2) + v % 2
  {
  }

  lemma UpperBits(v: nat, n: nat)
    requires n > 0
    ensures Keep(Shr(v, 1), n, 2, 1) == 4 * Keep(Shr(v / 4, 1), n - 1, 2, 1) + (v / 2) % 2
  {
    assert Shr(v, 1) == v / 2 && Shr(v / 4, 1) == (v / 4) / 2;
    assert Low(v / 2, 1) == (v / 2) % 2;
    assert Shr(v / 2, 2) == v / 2 / 2 / 2;
    Shifts(Keep(Shr(v / 4, 1), n - 1, 2, 1), 0, 0);
  }

  /** Adding, with a carry c in, without a carry out of the lowest digit. */
  lemma {:induction false} NoCarry(a: nat, b: nat, c: nat, w: nat)
    requires c < 2 && Low(a, w) + Low(b, w) + c < Pow2(w)
    ensures Low(a + b + c, w) == Low(a, w) + Low(b, w) + c && Shr(a + b + c, w) == Shr(a, w) + Shr(b, w)
    decreases w
  {
    if w > 0 {
      var t := a % 2 + b % 2 + c;
      SumHalves(a, b, c);
      CarryFits(a % 2, Low(a / 2, w - 1), b % 2, Low(b / 2, w - 1), c, Pow2(w - 1));
      NoCarry(a / 2, b / 2, t / 2, w - 1);
    }
  }

  lemma SumHalves(a: nat, b: nat, c: nat)
    ensures var t := a % 2 + b % 2 + c; (a + b + c) / 2 == a / 2 + b / 2 + t / 2 && (a + b + c) % 2 == t % 2
  {
  }

  lemma CarryFits(i: nat, x: nat, j: nat, y: nat, c: nat, p: nat)
    requires (i + 2 * x) + (j + 2 * y) + c < 2 * p
    ensures x + y + (i + j + c) / 2 < p
  {
  }

  /** x and y are u without its lowest digit and its two lowest digits. */
  lemma SumUpper(u: nat, x: nat, y: nat, w: nat, max: nat)
    requires x == Shr(u, w) && y == Shr(x, w) && 2 * max < Pow2(w)
    requires Low(u, w) <= max && Low(x, w) <= max && Low(y, w) <= max
    ensures Low(u + x, w) == Low(u, w) + Low(x, w) && Shr(Shr(u + x, w), w) == y + Shr(y, w)
  {
    PlainSum(u, x, w);
    PlainSum(x, y, w);
  }

  lemma PlainSum(a: nat, b: nat, w: nat)
    requires Low(a, w) + Low(b, w) < Pow2(w)
    ensures Low(a + b, w) == Low(a, w) + Low(b, w) && Shr(a + b, w) == Shr(a, w) + Shr(b, w)
  {
    NoCarry(a, b, 0, w);
  }

  lemma SumParts(u: nat, w: nat, max: nat)
    requires 2 * max < Pow2(w) && Low(u, w) <= max && Low(Shr(u, w), w) <= max && Low(Shr(u, w + w), w) <= max
    ensures Low(u + Shr(u, w), w) == Low(u, w) + Low(Shr(u, w), w)
    ensures Shr(u + Shr(u, w), w + w) == Shr(u, w + w) + Shr(Shr(u, w + w), w)
  {
    var x := Shr(u, w);
    ShrShr(u, w, w);
    ShrShr(u + x, w, w);
    SumUpper(u, x, Shr(x, w), w, max);
  }

  /** The nibbles of the sum that the mask keeps are the sums of two nibbles. */
  lemma {:induction false} NibbleSums(u: nat, n: nat, w: nat, max: nat, s: int)
    requires w > 0 && Digits(u, 2 * n, w, max, s) && 2 * max < Pow2(w)
    ensures Keep(u + Shr(u, w), n, w + w, w) == Keep(u, n, w + w, w) + Keep(Shr(u, w), n, w + w, w)
    decreases n
  {
    if n > 0 {
      var v, t := Shr(u, w + w), s - Low(u, w) - Low(Shr(u, w), w);
      TwoDigits(u, 2 * n, w, max, s);
      NibbleSums(v, n - 1, w, max, t);
      ThirdDigit(v, 2 * n - 2, w, max, t);
      SumStep(u, n, w, max);
    }
  }

  lemma SumStep(u: nat, n: nat, w: nat, max: nat)
    requires n > 0 && w > 0 && 2 * max < Pow2(w)
    requires Low(u, w) <= max && Low(Shr(u, w), w) <= max && Low(Shr(u, w + w), w) <= max
    requires var v := Shr(u, w + w); Keep(v + Shr(v, w), n - 1, w + w, w) == Keep(v, n - 1, w + w, w) + Keep(Shr(v, w), n - 1, w + w, w)
    ensures Keep(u + Shr(u, w), n, w + w, w) == Keep(u, n, w + w, w) + Keep(Shr(u, w), n, w + w, w)
  {
    SumParts(u, w, max);
    FoldParts(u, n, w);
  }

  lemma ThirdDigit(v: nat, n: nat, w: nat, max: nat, s: int)
    requires Digits(v, n, w, max, s)
    ensures Low(v, w) <= max
  {
    if n == 0 { LowZero(w); }
  }

  lemma {:induction false} LowZero(w: nat)
    ensures Low(0, w) == 0
  {
    if w > 0 { LowZero(w - 1); }
  }

  // ----- the sum of the bytes -----

  /** The upper byte of the product is the sum of the bytes. */
  lemma HorizontalSum(b0: nat, b1: nat, b2: nat, b3: nat, b4: nat, b5: nat, b6: nat, b7: nat, x: nat)
    requires b0 <= 8 && b1 <= 8 && b2 <= 8 && b3 <= 8 && b4 <= 8 && b5 <= 8 && b6 <= 8 && b7 <= 8
    requires x == b0 + 0x100 * b1 + 0x1_0000 * b2 + 0x100_0000 * b3 + 0x1_0000_0000 * b4 +
                  0x100_0000_0000 * b5 + 0x1_0000_0000_0000 * b6 + 0x100_0000_0000_0000 * b7
    ensures ((x * SUM) % TWO64) / 0x100_0000_0000_0000 == b0 + b1 + b2 + b3 + b4 + b5 + b6 + b7
  {
    var top := b0 + b1 + b2 + b3 + b4 + b5 + b6 + b7;
    var low := b0 + 0x100 * (b0 + b1) + 0x1_0000 * (b0 + b1 + b2) + 0x100_0000 * (b0 + b1 + b2 + b3) +
               0x1_0000_0000 * (b0 + b1 + b2 + b3 + b4) + 0x100_0000_0000 * (b0 + b1 + b2 + b3 + b4 + b5) +
               0x1_0000_0000_0000 * (b0 + b1 + b2 + b3 + b4 + b5 + b6);
    var high := (b1 + b2 + b3 + b4 + b5 + b6 + b7) + 0x100 * (b2 + b3 + b4 + b5 + b6 + b7) +
                0x1_0000 * (b3 + b4 + b5 + b6 + b7) + 0x100_0000 * (b4 + b5 + b6 + b7) +
                0x1_0000_0000 * (b5 + b6 + b7) + 0x100_0000_0000 * (b6 + b7) + 0x1_0000_0000_0000 * b7;
    assert x * SUM == high * TWO64 + (top * 0x100_0000_0000_0000 + low);
    DivUnique(x * SUM, TWO64, high, top * 0x100_0000_0000_0000 + low);
    DivUnique(top * 0x100_0000_0000_0000 + low, 0x100_0000_0000_0000, top, low);
  }

  lemma {:induction false} SplitDigit(x: nat, w: nat)
    ensures x == Shl(Shr(x, w), w) + Low(x, w)
    decreases w
  {
    if w > 0 { SplitDigit(x / 2, w - 1); }
  }

  lemma FirstByte(x: nat, n: nat, w: nat, s: int) returns (b: nat, rest: nat)
    requires n > 0 && w == 8 && Digits(x, n, w, 8, s)
    ensures b <= 8 && x == b + 256 * rest && Digits(rest, n - 1, w, 8, s - b)
  {
    b, rest := Low(x, w), Shr(x, w);
    SplitDigit(x, w);
    ShlIsTimes(rest, w);
    assert Pow2(w) == 256 by { Pow2Values(); }
  }

  lemma FourBytes(x: nat, n: nat, w: nat, s: int) returns (b0: nat, b1: nat, b2: nat, b3: nat, rest: nat)
    requires n >= 4 && w == 8 && Digits(x, n, w, 8, s)
    ensures b0 <= 8 && b1 <= 8 && b2 <= 8 && b3 <= 8
    ensures x == b0 + 0x100 * b1 + 0x1_0000 * b2 + 0x100_0000 * b3 + 0x1_0000_0000 * rest
    ensures Digits(rest, n - 4, w, 8, s - b0 - b1 - b2 - b3)
  {
    var x1, x2, x3;
    b0, x1 := FirstByte(x, n, w, s);
    b1, x2 := FirstByte(x1, n - 1, w, s - b0);
    b2, x3 := FirstByte(x2, n - 2, w, s - b0 - b1);
    b3, rest := FirstByte(x3, n - 3, w, s - b0 - b1 - b2);
  }

  lemma BytesSummed(x: nat, n: nat, w: nat, s: int)
    requires n == 8 && w == 8 && Digits(x, n, w, 8, s)
    ensures ((x * SUM) % TWO64) / 0x100_0000_0000_0000 == s
  {
    var b0, b1, b2, b3, y := FourBytes(x, n, w, s);
    var b4, b5, b6, b7, z := FourBytes(y, n - 4, w, s - b0 - b1 - b2 - b3);
    HorizontalSum(b0, b1, b2, b3, b4, b5, b6, b7, x);
  }

  lemma {:induction false} ShlMono(a: nat, b: nat, n: nat)
    requires a <= b
    ensures Shl(a, n) <= Shl(b, n)
  {
    if n > 0 { ShlMono(a, b, n - 1); }
  }

  lemma {:induction false} ShlPow2(m: nat, n: nat)
    ensures Shl(Pow2(m), n) == Pow2(m + n)
  {
    if n > 0 { ShlPow2(m, n - 1); }
  }

  lemma ScaleBound(r: nat, z: nat, m: nat, w: nat)
    requires 2 * r < Pow2(m) && 2 * z < Pow2(w)
    ensures 2 * (Shl(r, w) + z) < Pow2(m + w)
  {
    ShlMono(2 * r + 1, Pow2(m), w);
    ShlPow2(m, w);
    ShlPow2(0, w);
    ShlAdd(r, r, w);
    ShlAdd(2 * r, 1, w);
  }

  /** The number of bits of n digits of w bits. */
  function Width(n: nat, w: nat): (r: nat)
    ensures r == n * w
    decreases w, n
  {
    if n == 0 then 0 else Width(n - 1, w) + w
  }

  lemma {:induction false} DigitsBound(x: nat, n: nat, w: nat, max: nat, s: int)
    requires Digits(x, n, w, max, s) && 2 * max < Pow2(w)
    ensures 2 * x < Pow2(Width(n, w))
    decreases n
  {
    if n > 0 {
      DigitsBound(Shr(x, w), n - 1, w, max, s - Low(x, w));
      SplitDigit(x, w);
      ScaleBound(Shr(x, w), Low(x, w), Width(n - 1, w), w);
    }
  }

  // ----- popCount -----

  /** The first step: the odd bits, moved down, are taken from the word, which leaves the count of each pair of bits. */
  method CountPairs(v: Word) returns (val: Word)
    ensures Digits(val, 32, 2, 2, Ones(v))
  {
    Pow2Values();
    KeepOnes(Shr(v, 1), 32, M1);
    PairStep(v, 32);
    val := v - And(Shr(v, 1), M1);
  }

  /** The second step: the even and the odd pairs are masked out and added. */
  method AddPairs(u: Word, ghost s: nat) returns (val: Word)
    requires Digits(u, 32, 2, 2, s)
    ensures Digits(val, 16, 4, 4, s)
  {
    assert Pow2(4) == 16;
    FoldDigits(u, 16, 2, 2, s);
    var low := MaskPairs(u);
    var high := MaskPairs(Shr(u, 2));
    val := low + high;
  }

  method MaskPairs(a: Word) returns (val: Word)
    ensures val == Keep(a, 16, 4, 2) && val <= M2
  {
    Pow2Values();
    KeepPairs(a, 16, M2);
    val := And(a, M2);
  }

  /** The third step: neighbouring nibbles are added, and every other sum is kept. */
  method AddNibbles(u: Word, ghost s: nat) returns (val: Word)
    requires Digits(u, 16, 4, 4, s)
    ensures Digits(val, 8, 8, 8, s)
  {
    NibbleFold(u, s);
    val := MaskNibbles(Add64(u, Shr(u, 4)));
  }

  method MaskNibbles(a: Word) returns (val: Word)
    ensures val == Keep(a, 8, 8, 4)
  {
    Pow2Values();
    KeepNibbles(a, 8, M4);
    val := And(a, M4);
  }

  lemma NibbleFold(u: Word, s: nat)
    requires Digits(u, 16, 4, 4, s)
    ensures u + Shr(u, 4) < TWO64 && Digits(Keep(u + Shr(u, 4), 8, 8, 4), 8, 8, 8, s)
  {
    assert Pow2(4) == 16 && Pow2(8) == 256;
    NibbleFits(u, s);
    FoldSums(u, 8, 4, 4, s);
  }

  lemma NibbleFits(u: Word, s: nat)
    requires Digits(u, 16, 4, 4, s)
    ensures u + Shr(u, 4) < TWO64
  {
    assert Pow2(4) == 16;
    Pow2Values();
    DigitsBound(u, 16, 4, 4, s);
  }

  /** Adding neighbours and keeping every other sum folds the digits in pairs. */
  lemma FoldSums(u: nat, n: nat, w: nat, max: nat, s: int)
    requires w > 0 && Digits(u, 2 * n, w, max, s) && 2 * max < Pow2(w) && 2 * max < Pow2(w + w)
    ensures Digits(Keep(u + Shr(u, w), n, w + w, w), n, w + w, 2 * max, s)
  {
    NibbleSums(u, n, w, max, s);
    FoldDigits(u, n, w, max, s);
  }

  /** The parallel count is the number of one bits, for every 64-bit word. */
  method CountBits(v: Word) returns (count: nat)
    ensures count == Ones(v)
  {
    var val := CountPairs(v);
    val := AddPairs(val, Ones(v));
    val := AddNibbles(val, Ones(v));
    BytesSummed(val, 8, 8, Ones(v));
    count := ((val * SUM) % TWO64) / 0x100_0000_0000_0000;
  }
}
