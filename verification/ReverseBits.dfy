/** Bit reversal by table lookup: base/bitfield.cc and reverseBits() of base/bitfield.hh. */
module ReverseBits {
  import opened Bits
  import opened Bitfield

  // The lookup table, in rows of 16.
  function Row0(): seq<Byte> { [0x00, 0x80, 0x40, 0xC0, 0x20, 0xA0, 0x60, 0xE0, 0x10, 0x90, 0x50, 0xD0, 0x30, 0xB0, 0x70, 0xF0] }
  function Row1(): seq<Byte> { [0x08, 0x88, 0x48, 0xC8, 0x28, 0xA8, 0x68, 0xE8, 0x18, 0x98, 0x58, 0xD8, 0x38, 0xB8, 0x78, 0xF8] }
  function Row2(): seq<Byte> { [0x04, 0x84, 0x44, 0xC4, 0x24, 0xA4, 0x64, 0xE4, 0x14, 0x94, 0x54, 0xD4, 0x34, 0xB4, 0x74, 0xF4] }
  function Row3(): seq<Byte> { [0x0C, 0x8C, 0x4C, 0xCC, 0x2C, 0xAC, 0x6C, 0xEC, 0x1C, 0x9C, 0x5C, 0xDC, 0x3C, 0xBC, 0x7C, 0xFC] }
  function Row4(): seq<Byte> { [0x02, 0x82, 0x42, 0xC2, 0x22, 0xA2, 0x62, 0xE2, 0x12, 0x92, 0x52, 0xD2, 0x32, 0xB2, 0x72, 0xF2] }
  function Row5(): seq<Byte> { [0x0A, 0x8A, 0x4A, 0xCA, 0x2A, 0xAA, 0x6A, 0xEA, 0x1A, 0x9A, 0x5A, 0xDA, 0x3A, 0xBA, 0x7A, 0xFA] }
  function Row6(): seq<Byte> { [0x06, 0x86, 0x46, 0xC6, 0x26, 0xA6, 0x66, 0xE6, 0x16, 0x96, 0x56, 0xD6, 0x36, 0xB6, 0x76, 0xF6] }
  function Row7(): seq<Byte> { [0x0E, 0x8E, 0x4E, 0xCE, 0x2E, 0xAE, 0x6E, 0xEE, 0x1E, 0x9E, 0x5E, 0xDE, 0x3E, 0xBE, 0x7E, 0xFE] }
  function Row8(): seq<Byte> { [0x01, 0x81, 0x41, 0xC1, 0x21, 0xA1, 0x61, 0xE1, 0x11, 0x91, 0x51, 0xD1, 0x31, 0xB1, 0x71, 0xF1] }
  function Row9(): seq<Byte> { [0x09, 0x89, 0x49, 0xC9, 0x29, 0xA9, 0x69, 0xE9, 0x19, 0x99, 0x59, 0xD9, 0x39, 0xB9, 0x79, 0xF9] }
  function RowA(): seq<Byte> { [0x05, 0x85, 0x45, 0xC5, 0x25, 0xA5, 0x65, 0xE5, 0x15, 0x95, 0x55, 0xD5, 0x35, 0xB5, 0x75, 0xF5] }
  function RowB(): seq<Byte> { [0x0D, 0x8D, 0x4D, 0xCD, 0x2D, 0xAD, 0x6D, 0xED, 0x1D, 0x9D, 0x5D, 0xDD, 0x3D, 0xBD, 0x7D, 0xFD] }
  function RowC(): seq<Byte> { [0x03, 0x83, 0x43, 0xC3, 0x23, 0xA3, 0x63, 0xE3, 0x13, 0x93, 0x53, 0xD3, 0x33, 0xB3, 0x73, 0xF3] }
  function RowD(): seq<Byte> { [0x0B, 0x8B, 0x4B, 0xCB, 0x2B, 0xAB, 0x6B, 0xEB, 0x1B, 0x9B, 0x5B, 0xDB, 0x3B, 0xBB, 0x7B, 0xFB] }
  function RowE(): seq<Byte> { [0x07, 0x87, 0x47, 0xC7, 0x27, 0xA7, 0x67, 0xE7, 0x17, 0x97, 0x57, 0xD7, 0x37, 0xB7, 0x77, 0xF7] }
  function RowF(): seq<Byte> { [0x0F, 0x8F, 0x4F, 0xCF, 0x2F, 0xAF, 0x6F, 0xEF, 0x1F, 0x9F, 0x5F, 0xDF, 0x3F, 0xBF, 0x7F, 0xFF] }

  function TableRow(h: nat): (r: seq<Byte>)
    ensures |r| == 16
  {
    match h
    case 0 => Row0()
    case 1 => Row1()
    case 2 => Row2()
    case 3 => Row3()
    case 4 => Row4()
    case 5 => Row5()
    case 6 => Row6()
    case 7 => Row7()
    case 8 => Row8()
    case 9 => Row9()
    case 10 => RowA()
    case 11 => RowB()
    case 12 => RowC()
    case 13 => RowD()
    case 14 => RowE()
    case _ => RowF()
  }

  /** The entry of the lookup table for byte b. */
  function Table(b: Byte): Byte
  {
    TableRow(b / 16)[b % 16]
  }

  /** The n low bits of v in the opposite order. */
  function Mirror(v: nat, n: nat): nat
  {
    if n == 0 then 0 else Mirror(v / 2, n - 1) + Shl(v % 2, n - 1)
  }

  lemma {:induction false} MirrorBound(v: nat, n: nat)
    ensures Mirror(v, n) < Pow2(n)
  {
    if n > 0 {
      MirrorBound(v / 2, n - 1);
      ShlBit(v % 2, n - 1);
    }
  }

  lemma {:induction false} ShlBit(b: nat, n: nat)
    requires b < 2
    ensures Shl(b, n) == if b == 0 then 0 else Pow2(n)
  {
    if n > 0 { ShlBit(b, n - 1); }
  }

  /** Bit i of the mirror image is bit n - 1 - i. */
  lemma {:induction false} MirrorBits(v: nat, n: nat, i: nat)
    ensures Bit(Mirror(v, n), i) == (i < n && Bit(v, n - 1 - i))
  {
    if n == 0 {
      BitZero(i);
    } else {
      MirrorBits(v / 2, n - 1, i);
      MirrorBound(v / 2, n - 1);
      AddTop(Mirror(v / 2, n - 1), v % 2, n - 1, i);
    }
  }

  /** Adding bit m to a number of m bits. */
  lemma {:induction false} AddTop(a: nat, b: nat, m: nat, i: nat)
    requires a < Pow2(m) && b < 2
    ensures Bit(a + Shl(b, m), i) == if i == m then b == 1 else Bit(a, i)
    decreases m
  {
    if m == 0 {
      if i > 0 { BitZero(i - 1); }
    } else {
      assert (a + Shl(b, m)) % 2 == a % 2 && (a + Shl(b, m)) / 2 == a / 2 + Shl(b, m - 1);
      if i > 0 { AddTop(a / 2, b, m - 1, i - 1); }
    }
  }

  // ----- the table -----

  /** Four bits in the opposite order. */
  function Nibble(v: nat): nat
  {
    match v
    case 0 => 0
    case 1 => 8
    case 2 => 4
    case 3 => 12
    case 4 => 2
    case 5 => 10
    case 6 => 6
    case 7 => 14
    case 8 => 1
    case 9 => 9
    case 10 => 5
    case 11 => 13
    case 12 => 3
    case 13 => 11
    case 14 => 7
    case _ => 15
  }

  /** The row of the bytes whose upper nibble mirrors to n. */
  function Row(n: nat): seq<nat>
  {
    [0x00 + n, 0x80 + n, 0x40 + n, 0xC0 + n, 0x20 + n, 0xA0 + n, 0x60 + n, 0xE0 + n,
     0x10 + n, 0x90 + n, 0x50 + n, 0xD0 + n, 0x30 + n, 0xB0 + n, 0x70 + n, 0xF0 + n]
  }

  lemma RowAt(n: nat, l: nat)
    requires l < 16
    ensures Row(n)[l] == 16 * Nibble(l) + n
  {
  }

  lemma Rows0to7()
    ensures Row0() == Row(0) && Row1() == Row(8) && Row2() == Row(4) && Row3() == Row(12)
    ensures Row4() == Row(2) && Row5() == Row(10) && Row6() == Row(6) && Row7() == Row(14)
  {
  }

  lemma Rows8toF()
    ensures Row8() == Row(1) && Row9() == Row(9) && RowA() == Row(5) && RowB() == Row(13)
    ensures RowC() == Row(3) && RowD() == Row(11) && RowE() == Row(7) && RowF() == Row(15)
  {
  }

  lemma TableRowIs(h: nat)
    requires h < 16
    ensures TableRow(h) == Row(Nibble(h))
  {
    Rows0to7();
    Rows8toF();
  }

  lemma TableNibbles(b: Byte)
    ensures Table(b) == 16 * Nibble(b % 16) + Nibble(b / 16)
  {
    TableRowIs(b / 16);
    RowAt(Nibble(b / 16), b % 16);
  }

  lemma NibbleBits(a: nat, b: nat, c: nat, d: nat)
    requires a < 2 && b < 2 && c < 2 && d < 2
    ensures Nibble(8 * a + 4 * b + 2 * c + d) == 8 * d + 4 * c + 2 * b + a
  {
  }

  /** One more bit below v, whose mirror image is m, gives the bit p above m. */
  lemma MirrorStep(v: nat, d: nat, n: nat, m: nat, p: nat)
    requires d < 2 && Mirror(v, n) == m && p == Pow2(n)
    ensures Mirror(2 * v + d, n + 1) == if d == 0 then m else m + p
  {
    assert (2 * v + d) / 2 == v && (2 * v + d) % 2 == d;
    ShlBit(d, n);
  }

  lemma MirrorTwo(q: nat, a: nat, b: nat)
    requires a < 2 && b < 2
    ensures Mirror(2 * (2 * q + a) + b, 2) == 2 * b + a
  {
    MirrorStep(q, a, 0, 0, 1);
    MirrorStep(2 * q + a, b, 1, a, 2);
  }

  lemma MirrorNibble(q: nat, a: nat, b: nat, c: nat, d: nat)
    requires a < 2 && b < 2 && c < 2 && d < 2
    ensures Mirror(2 * (2 * (2 * (2 * q + a) + b) + c) + d, 4) == 8 * d + 4 * c + 2 * b + a
  {
    var u := 2 * (2 * q + a) + b;
    MirrorTwo(q, a, b);
    MirrorStep(u, c, 2, 2 * b + a, 4);
    MirrorStep(2 * u + c, d, 3, 4 * c + 2 * b + a, 8);
  }

  lemma NibbleMirrors(q: nat, l: nat)
    requires l < 16
    ensures Mirror(16 * q + l, 4) == Nibble(l)
  {
    var a := if l >= 8 then 1 else 0;
    var b := if l - 8 * a >= 4 then 1 else 0;
    var c := if l - 8 * a - 4 * b >= 2 then 1 else 0;
    var d := l - 8 * a - 4 * b - 2 * c;
    NibbleBits(a, b, c, d);
    MirrorNibble(q, a, b, c, d);
    assert 16 * q + l == 2 * (2 * (2 * (2 * q + a) + b) + c) + d;
  }

  /** Mirroring in two parts exchanges the parts. */
  lemma {:induction false} MirrorJoin(v: nat, m: nat, n: nat)
    ensures Mirror(v, m + n) == Shl(Mirror(v, m), n) + Mirror(Shr(v, m), n)
    decreases m
  {
    if m == 0 {
      ShlBit(0, n);
    } else {
      MirrorJoin(v / 2, m - 1, n);
      ShlAdd(Mirror(v / 2, m - 1), Shl(v % 2, m - 1), n);
      ShlShl(v % 2, m - 1, n);
    }
  }

  lemma ShlFour(x: nat)
    ensures Shl(x, 4) == 16 * x
  {
    assert Shl(x, 1) == 2 * x;
    assert Shl(x, 2) == 4 * x;
    assert Shl(x, 3) == 8 * x;
  }

  lemma ShrFour(x: nat)
    ensures Shr(x, 4) == x / 16
  {
    assert Pow2(4) == 16;
    ShrIsDiv(x, 4);
  }

  /** The table holds the mirror image of every byte. */
  lemma TableMirrors(b: Byte)
    ensures Table(b) == Mirror(b, 8)
  {
    TableNibbles(b);
    ByteMirrors(b, b / 16, b % 16);
  }

  lemma ByteMirrors(b: nat, h: nat, l: nat)
    requires h < 16 && l < 16 && b == 16 * h + l
    ensures Mirror(b, 8) == 16 * Nibble(l) + Nibble(h)
  {
    MirrorJoin(b, 4, 4);
    NibbleMirrors(h, l);
    NibbleMirrors(0, h);
    ShrFour(b);
    DivUnique(b, 16, h, l);
    ShlFour(Nibble(l));
  }

  // ----- the loop -----

  lemma {:induction false} OrAdds(x: nat, t: nat, n: nat)
    requires t < Pow2(n)
    ensures Or(Shl(x, n), t) == Shl(x, n) + t
    decreases n
  {
    if n == 0 {
      OrZero(x);
    } else {
      OrAdds(x, t / 2, n - 1);
      assert (Shl(x, n)) / 2 == Shl(x, n - 1) && Shl(x, n) % 2 == 0;
    }
  }

  lemma {:induction false} MirrorOfLow(v: nat, n: nat)
    ensures Mirror(Low(v, n), n) == Mirror(v, n)
  {
    if n > 0 {
      MirrorOfLow(v / 2, n - 1);
      assert Low(v, n) % 2 == v % 2 && Low(v, n) / 2 == Low(v / 2, n - 1);
    }
  }

  /** One round of the loop: one more byte, of n bits, in front of the mirrored ones. */
  lemma NextByte(val: nat, bits: nat, width: nat, n: nat)
    requires n == 8 && bits + n <= width
    ensures Low(Shr(val, bits), n) < 256 && Shr(Shr(val, bits), n) == Shr(val, bits + n)
    ensures Or(Low(Shl(Mirror(val, bits), n), width), Table(Low(Shr(val, bits), n))) == Mirror(val, bits + n)
  {
    TableOfLow(Shr(val, bits), n);
    ShrShr(val, bits, n);
    Fits(val, bits, n, width);
    OrAdds(Mirror(val, bits), Mirror(Shr(val, bits), n), n);
    MirrorJoin(val, bits, n);
  }

  lemma TableOfLow(v: nat, n: nat)
    requires n == 8
    ensures Low(v, n) < 256 && Table(Low(v, n)) == Mirror(v, n) && Mirror(v, n) < Pow2(n)
  {
    assert Pow2(n) == 256 by { Pow2Values(); }
    LowBound(v, n);
    TableMirrors(Low(v, n));
    MirrorOfLow(v, n);
    MirrorBound(v, n);
  }

  /** The body of the loop, on a type of width bits. */
  method ReverseByte(ghost val: nat, ghost bits: nat, v: nat, output: nat, width: nat) returns (v': nat, output': nat)
    requires bits + 8 <= width && v == Shr(val, bits) && output == Mirror(val, bits)
    ensures v' == Shr(val, bits + 8) && output' == Mirror(val, bits + 8)
  {
    NextByte(val, bits, width, 8);
    output' := Or(Low(Shl(output, 8), width), Table(Low(v, 8)));
    v' := Shr(v, 8);
  }

  /**
   * reverseBits() on an unsigned type of width bytes: the 8 * size low bits in the opposite
   * order, and zeros above them.
   */
  method Reverse(val: nat, size: nat, width: nat) returns (output: nat)
    requires size <= width <= 8 && val < Pow2(8 * width)
    ensures output == Mirror(val, 8 * size)
    ensures forall i: nat :: Bit(output, i) == (i < 8 * size && Bit(val, 8 * size - 1 - i))
  {
    output := 0;
    var v := val;
    for byte := 0 to size
      invariant v == Shr(val, 8 * byte) && output == Mirror(val, 8 * byte)
    {
      v, output := ReverseByte(val, 8 * byte, v, output, 8 * width);
    }
    MirrorAllBits(val, 8 * size);
  }

  lemma MirrorAllBits(v: nat, n: nat)
    ensures forall i: nat :: Bit(Mirror(v, n), i) == (i < n && Bit(v, n - 1 - i))
  {
    forall i: nat ensures Bit(Mirror(v, n), i) == (i < n && Bit(v, n - 1 - i)) { MirrorBits(v, n, i); }
  }

  /** The shift of the output does not lose bits. */
  lemma Fits(val: nat, bits: nat, n: nat, width: nat)
    requires bits + n <= width
    ensures Low(Shl(Mirror(val, bits), n), width) == Shl(Mirror(val, bits), n)
  {
    MirrorBound(val, bits);
    ShlBound(Mirror(val, bits), bits, n);
    Pow2Mono(bits + n, width);
    LowBound(Shl(Mirror(val, bits), n), width);
  }

  lemma {:induction false} ShlBound(a: nat, m: nat, n: nat)
    requires a < Pow2(m)
    ensures Shl(a, n) < Pow2(m + n)
  {
    if n > 0 { ShlBound(a, m, n - 1); }
  }

  /** Mirroring twice gives back the low bits, and so the value when it has no others. */
  lemma MirrorTwice(v: nat, n: nat)
    ensures Mirror(Mirror(v, n), n) == Low(v, n)
    ensures Mirror(Mirror(v, n), n) == v <==> v < Pow2(n)
  {
    var m := Mirror(v, n);
    forall i: nat ensures Bit(Mirror(m, n), i) == Bit(Low(v, n), i) {
      MirrorBits(m, n, i);
      BitLow(v, n, i);
      if i < n { MirrorBits(v, n, n - 1 - i); }
    }
    BitsEqual(Mirror(m, n), Low(v, n));
    LowBound(v, n);
  }

  /** Mirroring one byte of a longer value looks up its lowest byte. */
  lemma LowByteMirrors(v: nat, h: nat, l: Byte, n: nat)
    requires v == 256 * h + l && n == 8
    ensures Mirror(v, n) == Table(l)
  {
    assert Low(v, n) == l by {
      Pow2Values();
      LowIsMod(v, n);
      DivUnique(v, 256, h, l);
    }
    TableOfLow(v, n);
  }

  lemma TableOfThree()
    ensures Table(3) == 0xc0
  {
  }

  /** The comment's example for one byte, 0x03c0, keeps the upper byte; the code clears it. */
  lemma OneByteExample(v: nat, n: nat)
    requires v == 0x0303 && n == 8
    ensures Mirror(v, n) == 0xc0
  {
    LowByteMirrors(v, 3, 3, n);
    TableOfThree();
  }
}
