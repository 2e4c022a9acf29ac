/**
 * The address ranges of base/addr_range.hh: a span [start, end), possibly
 * restricted to one of the stripes that a list of XOR masks cuts it into.
 */
module AddrRanges {
  import opened Bits
  import opened Bitfield
  import opened Interleave
  import opened Sorting

  type Addr = Word

  const MaxAddr: Addr := TWO64 - 1

  /** Subtraction of 64-bit words. */
  function Sub64(a: Addr, b: Addr): (r: Addr)
    ensures b <= a ==> r == a - b
  {
    (a - b) % TWO64
  }

  /** Conversion of an int to unsigned. */
  function ToUnsigned(x: int): (r: Unsigned)
  {
    x % TWO32
  }

  /** Conversion of the bit pattern of an int to a 64-bit word. */
  function SignExtend(c: Unsigned): (r: Word)
  {
    if c < TWO32 / 2 then c else c + TWO64 - TWO32
  }

  /** A constructor of the source either builds a range or ends the program. */
  datatype Result<T> = Ok(value: T) | Fatal

  datatype AddrRange = AddrRange(start: Addr, end: Addr, masks: seq<Addr>, intlvMatch: Byte) {

    predicate Interleaved()
    {
      |masks| > 0
    }

    /** The addresses of the range. */
    predicate Has(a: nat)
    {
      start <= a < end && Sel(masks, a) == intlvMatch
    }

    function Size(): (r: Addr)
    {
      Shr(Sub64(end, start), |masks|)
    }

    /**
     * What the operations rely on: the lowest bits of the masks are distinct,
     * the match value is a selector, and a selector fits in an int.
     */
    ghost predicate WellFormed()
    {
      DistinctLsbs(masks) && |masks| <= 31 && intlvMatch < Pow2(|masks|)
    }

    /** The start and the end lie on boundaries of the whole interleaving pattern. */
    ghost predicate AlignedBounds()
      requires DistinctLsbs(masks)
    {
      start <= end && Aligned(start, Top(masks)) && Aligned(end, Top(masks))
    }

    method Contains(a: Addr) returns (r: bool)
      requires |masks| <= 31
      ensures r <==> Has(a)
    {
      var inRange := a >= start && a < end;
      if inRange {
        var sel: nat := 0;
        forall j: nat ensures !Bit(sel, j) { BitZero(j); }
        for i := 0 to |masks|
          invariant forall j: nat :: Bit(sel, j) == (j < i && Parity(a, masks[j]))
        {
          var masked := And(a, masks[i]);
          ghost var before := sel;
          sel := Or(sel, Shl(Ones(masked) % 2, i));
          forall j: nat ensures Bit(sel, j) == (j < i + 1 && Parity(a, masks[j])) {
            BitOr(before, Shl(Ones(masked) % 2, i), j);
            BitShl(Ones(masked) % 2, i, j);
            if j > i { BitBound(Ones(masked) % 2, 1, j - i); }
          }
        }
        forall j: nat ensures Bit(sel, j) == Bit(Sel(masks, a), j) { SelBits(masks, a, j); }
        BitsEqual(sel, Sel(masks, a));
        return sel == intlvMatch;
      }
      return false;
    }

    /** The lowest bit that takes part in the interleaving. */
    function Granule(): (r: nat)
      requires NonZero(masks)
    {
      if Interleaved() then Pow2(LowestBit(masks)) else Size()
    }

    /** granularity() shifts by at most 63. */
    predicate HasGranule()
    {
      NonZero(masks) && (Interleaved() ==> LowestBit(masks) < 32)
    }

    /** The masks are combined in an int, which keeps their 32 low bits. */
    method Granularity() returns (r: nat)
      requires HasGranule()
      ensures r == Granule()
    {
      if Interleaved() {
        var combined: Unsigned := 0;
        forall j: nat ensures !Bit(combined, j) { BitZero(j); }
        for i := 0 to |masks|
          invariant forall j: nat :: Bit(combined, j) == (j < 32 && exists t :: 0 <= t < i && Bit(masks[t], j))
        {
          ghost var before := combined;
          combined := Or(SignExtend(combined), masks[i]) % TWO32;
          forall j: nat ensures Bit(combined, j) == (j < 32 && exists t :: 0 <= t < i + 1 && Bit(masks[t], j)) {
            CombineBits(before, masks[i], j);
          }
        }
        LowestBitIsLowest(masks, combined);
        var lowest := Ctz64(SignExtend(combined));
        return Pow2(lowest);
      } else {
        return Size();
      }
    }

    /** removeIntlvBits(), which counts the masks in an int. */
    method RemoveIntlvBits(a: Addr) returns (r: Addr)
      requires |masks| < TWO32 / 2
      ensures r == Removed(a, Sorted(Lsbs(masks)), |masks|)
      ensures DistinctLsbs(masks) ==> r == Compress(a, LsbSet(masks), 0)
    {
      if DistinctLsbs(masks) { RemovedIsCompressed(masks, a); }
      if !Interleaved() {
        return a;
      }
      var lsbs := SortedLsbs(masks);
      r := RemoveLsbs(lsbs, a);
    }

    method AddIntlvBits(b: Addr) returns (a: Addr)
      requires NonZero(masks) && (forall j :: 0 <= j < |masks| ==> Lsb(masks[j]) < 31)
      requires |masks| <= 31
      ensures a == AddBits(masks, intlvMatch, Low(b, 64 - |masks|))
    {
      if !Interleaved() {
        LowWhole(b, 64 - |masks|);
        return b;
      }
      var lsbs := SortedLsbs(masks);
      forall i | 0 <= i < lsbs.Length ensures lsbs[i] < 31 { SortedElement(Lsbs(masks), i); }
      a := MakeRoom(lsbs, b);
      a := WriteLsbs(masks, intlvMatch, a);
    }

    predicate MergesWith(r: AddrRange)
    {
      r.start == start && r.end == end && r.masks == masks
    }

    /** The pairs of ranges that intersects() is prepared to compare; it panics on the others. */
    predicate Comparable(r: AddrRange)
    {
      start >= r.end || end <= r.start || (!Interleaved() && !r.Interleaved()) || r.Size() == 1 || MergesWith(r)
    }

    predicate Intersects(r: AddrRange)
      requires Comparable(r)
    {
      if start >= r.end || end <= r.start then false
      else if !Interleaved() && !r.Interleaved() then true
      else if r.Size() == 1 then Has(r.start)
      else intlvMatch == r.intlvMatch
    }

    /** isSubset(), which panics on an interleaved receiver. */
    predicate IsSubset(r: AddrRange)
      requires !Interleaved() && r.HasGranule()
    {
      if r.Interleaved() then
        r.Has(start) && r.Has(Sub64(end, 1)) && Size() <= r.Granule()
      else
        start >= r.start && end <= r.end
    }

    /** The order of the ranges in a range map. */
    predicate Less(r: AddrRange)
    {
      if start != r.start then start < r.start
      else if Interleaved() && r.Interleaved() then intlvMatch < r.intlvMatch
      else Interleaved()
    }

    /** The offset of a in the range, without the interleaving bits. */
    ghost function Offset(a: Addr): (r: Addr)
      requires DistinctLsbs(masks)
    {
      if !(start <= a < end) then MaxAddr
      else Sub64(Compressed(masks, a), Compressed(masks, start))
    }

    method GetOffset(a: Addr) returns (r: Addr)
      requires |masks| < TWO32 / 2
      ensures DistinctLsbs(masks) ==> r == Offset(a)
      ensures r == if start <= a < end
                   then Sub64(Removed(a, Sorted(Lsbs(masks)), |masks|), Removed(start, Sorted(Lsbs(masks)), |masks|))
                   else MaxAddr
    {
      if DistinctLsbs(masks) {
        RemovedIsCompressed(masks, a);
        RemovedIsCompressed(masks, start);
      }
      var inRange := a >= start && a < end;
      if !inRange {
        return MaxAddr;
      }
      if Interleaved() {
        var x := RemoveIntlvBits(a);
        var y := RemoveIntlvBits(start);
        return Sub64(x, y);
      } else {
        return a - start;
      }
    }
  }

  // ----- granularity -----

  /** The lowest bit set in any of the masks. */
  function LowestBit(masks: seq<nat>): (r: nat)
    requires |masks| > 0 && NonZero(masks)
    ensures exists t :: 0 <= t < |masks| && r == Lsb(masks[t])
    ensures forall t :: 0 <= t < |masks| ==> r <= Lsb(masks[t])
  {
    if |masks| == 1 then Lsb(masks[0])
    else
      var rest := LowestBit(masks[1..]);
      if Lsb(masks[0]) < rest then Lsb(masks[0]) else rest
  }

  lemma SignExtendBits(c: Unsigned, j: nat)
    ensures j < 32 ==> Bit(SignExtend(c), j) == Bit(c, j)
  {
    Pow2Values();
    assert SignExtend(c) % TWO32 == c by {
      if c >= TWO32 / 2 { DivUnique(SignExtend(c), TWO32, TWO32 - 1, c); }
    }
    BitMod(SignExtend(c), 32, TWO32, j);
  }

  lemma CombineBits(c: Unsigned, m: Word, j: nat)
    ensures Bit(Or(SignExtend(c), m) % TWO32, j) == (j < 32 && (Bit(c, j) || Bit(m, j)))
  {
    Pow2Values();
    BitMod(Or(SignExtend(c), m), 32, TWO32, j);
    BitOr(SignExtend(c), m, j);
    SignExtendBits(c, j);
  }

  lemma LowestBitIsLowest(masks: seq<Word>, c: Unsigned)
    requires |masks| > 0 && NonZero(masks) && LowestBit(masks) < 32
    requires forall j: nat :: Bit(c, j) == (j < 32 && exists t :: 0 <= t < |masks| && Bit(masks[t], j))
    ensures Ctz64(SignExtend(c)) == LowestBit(masks)
  {
    var l := LowestBit(masks);
    var t :| 0 <= t < |masks| && l == Lsb(masks[t]);
    LsbBits(masks[t], l);
    SignExtendBits(c, l);
    forall i | 0 <= i < l ensures !Bit(SignExtend(c), i) {
      SignExtendBits(c, i);
      forall u | 0 <= u < |masks| ensures !Bit(masks[u], i) { LsbBits(masks[u], i); }
    }
    LsbUnique(SignExtend(c), l);
  }

  // ----- the sorted lowest bits -----

  /** The trailing zeros of every mask. */
  function Lsbs(masks: seq<Word>): (s: seq<nat>)
    ensures |s| == |masks| && forall i :: 0 <= i < |masks| ==> s[i] == Ctz64(masks[i])
  {
    seq(|masks|, i requires 0 <= i < |masks| => Ctz64(masks[i]))
  }

  method SortedLsbs(masks: seq<Word>) returns (lsbs: array<nat>)
    ensures fresh(lsbs) && lsbs[..] == Sorted(Lsbs(masks)) && lsbs.Length == |masks|
    ensures Ascending(lsbs[..]) && multiset(lsbs[..]) == multiset(Lsbs(masks))
    ensures forall i :: 0 <= i < lsbs.Length ==> lsbs[i] <= 64
    ensures DistinctLsbs(masks) ==> StrictlyIncreasing(lsbs[..]) && Elements(lsbs[..]) == LsbSet(masks)
  {
    lsbs := new nat[|masks|];
    for i := 0 to |masks|
      invariant forall j :: 0 <= j < i ==> lsbs[j] == Ctz64(masks[j])
    {
      lsbs[i] := Ctz64(masks[i]);
    }
    assert lsbs[..] == Lsbs(masks);
    Sort(lsbs);
    SortedAscending(Lsbs(masks));
    forall i | 0 <= i < |masks| ensures lsbs[i] <= 64 { SortedElement(Lsbs(masks), i); }
    if DistinctLsbs(masks) { SortedLsbsFacts(masks); }
  }

  lemma SortedLsbsFacts(masks: seq<Word>)
    requires DistinctLsbs(masks)
    ensures StrictlyIncreasing(Sorted(Lsbs(masks)))
    ensures Elements(Sorted(Lsbs(masks))) == LsbSet(masks)
    ensures forall i :: 0 <= i < |masks| ==> Sorted(Lsbs(masks))[i] < 64
  {
    var s := Sorted(Lsbs(masks));
    SortedDistinct(Lsbs(masks));
    assert Elements(s) == LsbSet(masks);
    forall i | 0 <= i < |masks| ensures s[i] < 64 {
      assert s[i] in Elements(s);
      LsbBelow64(masks, s[i]);
    }
  }

  // ----- removing bits -----

  ghost function Compressed(masks: seq<nat>, a: nat): (r: nat)
    requires DistinctLsbs(masks)
    ensures r <= a
  {
    Compress(a, LsbSet(masks), 0)
  }

  /**
   * a after i rounds of removeIntlvBits with the positions s.  Each round drops one bit, i bits
   * having gone before; a repeated position can fall behind i, and then nothing is dropped.
   */
  function Removed(a: nat, s: seq<nat>, i: nat): (r: nat)
    requires i <= |s|
    ensures r <= a
    decreases i
  {
    if i == 0 then a
    else
      var x, p := Removed(a, s, i - 1), s[i - 1];
      if p == 0 then Shr(x, 1) else if p < i - 1 then x else (RemoveSmaller(x, p - (i - 1)); RemoveBit(x, p - (i - 1)))
  }

  lemma {:induction false} RemoveSmaller(a: nat, p: nat)
    ensures RemoveBit(a, p) <= a
    decreases a, p
  {
    if p > 0 { RemoveSmaller(a / 2, p - 1); }
  }

  /** The round i of removeIntlvBits, for a position p that may be repeated. */
  lemma RemoveStep(r: Addr, p: nat, i: nat)
    requires p <= 64 && i < TWO32 / 2
    ensures p > 0 ==> InsertBits(Shr(r, 1), ToUnsigned(p - i - 1), 0, r) == if p < i then r else RemoveBit(r, p - i)
  {
    if p < i || p - i == 64 {
      if p > 0 { InsertBitsKeeps(r, ToUnsigned(p - i - 1)); }
      if p >= i { RemoveBeyond(r); }
    } else {
      InsertBitsRemoves(r, p - i, ToUnsigned(p - i - 1));
    }
  }

  /** The loop of removeIntlvBits. */
  method RemoveLsbs(lsbs: array<nat>, a: Addr) returns (r: Addr)
    requires lsbs.Length < TWO32 / 2 && (forall i :: 0 <= i < lsbs.Length ==> lsbs[i] <= 64)
    ensures r == Removed(a, lsbs[..], lsbs.Length)
  {
    r := a;
    for i := 0 to lsbs.Length
      invariant r == Removed(a, lsbs[..], i)
    {
      r := RemoveRound(r, lsbs[i], i);
    }
  }

  /** The body of the loop of removeIntlvBits. */
  method RemoveRound(a: Addr, bit: nat, i: nat) returns (r: Addr)
    requires bit <= 64 && i < TWO32 / 2
    ensures r == if bit == 0 then Shr(a, 1) else if bit < i then a else RemoveBit(a, bit - i)
  {
    RemoveStep(a, bit, i);
    if bit > 0 {
      r := InsertBits(Shr(a, 1), ToUnsigned(bit - i - 1), 0, a);
    } else {
      r := Shr(a, 1);
    }
  }

  lemma RemoveBeyond(a: Addr)
    ensures RemoveBit(a, 64) == a
  {
    Pow2Values();
    forall i: nat ensures Bit(RemoveBit(a, 64), i) == Bit(a, i) {
      BitRemove(a, 64, i);
      if i >= 64 {
        BitBound(a, 64, i);
        BitBound(a, 64, i + 1);
      }
    }
    BitsEqual(RemoveBit(a, 64), a);
  }

  /** With distinct lowest bits the rounds drop exactly those bits. */
  lemma RemovedIsCompressed(masks: seq<Word>, a: nat)
    requires DistinctLsbs(masks)
    ensures Removed(a, Sorted(Lsbs(masks)), |masks|) == Compressed(masks, a)
  {
    var s := Sorted(Lsbs(masks));
    SortedLsbsFacts(masks);
    RemovedPrefix(a, s, |masks|);
    assert s[..|masks|] == s;
  }

  lemma {:induction false} RemovedPrefix(a: nat, s: seq<nat>, i: nat)
    requires StrictlyIncreasing(s) && i <= |s|
    ensures Removed(a, s, i) == Compress(a, Elements(s[..i]), 0)
    decreases i
  {
    if i == 0 {
      assert Elements(s[..0]) == {};
      CompressAbove(a, {}, 0);
    } else {
      RemovedPrefix(a, s, i - 1);
      RemoveNext(a, s, i - 1);
      RemovedNext(a, s, i - 1);
    }
  }

  lemma RemovedNext(a: nat, s: seq<nat>, i: nat)
    requires i < |s| && i <= s[i]
    ensures Removed(a, s, i + 1) == RemoveBit(Removed(a, s, i), s[i] - i)
  {
    ShiftIsRemoval(Removed(a, s, i));
  }

  lemma ShiftIsRemoval(x: nat)
    ensures Shr(x, 1) == RemoveBit(x, 0)
  {
    assert Shr(x / 2, 0) == x / 2;
  }

  /** A position that repeats: three times bit 1 drops bits 1 and 0 and then nothing. */
  lemma RepeatedLow(a: nat, s: seq<nat>)
    requires |s| == 3 && s[0] == 1 && s[1] == 1 && s[2] == 1
    ensures Removed(a, s, 3) == a / 4
  {
    RemovedNext(a, s, 0);
    RemovedNext(a, s, 1);
    RemoveLow(a);
    RemoveLow(RemoveBit(a, 1));
    assert Removed(a, s, 2) == RemoveBit(Removed(a, s, 1), 0);
  }

  /** A position that repeats: twice bit 2 drops bits 2 and 1. */
  lemma RepeatedTwice(a: nat, s: seq<nat>)
    requires |s| == 2 && s[0] == 2 && s[1] == 2
    ensures Removed(a, s, 2) == a % 2 + 2 * (a / 8)
  {
    RemovedNext(a, s, 0);
    RemovedNext(a, s, 1);
    RemoveLow(a);
    var y := RemoveBit(a, 2);
    ThreeParts(a % 2, (a / 2) % 2, a / 8);
    assert RemoveBit(y, 1) == y % 2 + 2 * (y / 4) by { RemoveLow(y); }
  }

  lemma ThreeParts(u: nat, v: nat, w: nat)
    requires u < 2 && v < 2
    ensures (u + 2 * v + 4 * w) % 2 == u && (u + 2 * v + 4 * w) / 4 == w
  {
    DivUnique(u + 2 * v + 4 * w, 2, v + 2 * w, u);
    DivUnique(u + 2 * v + 4 * w, 4, w, u + 2 * v);
  }

  lemma RemoveLow(a: nat)
    ensures RemoveBit(a, 0) == a / 2 && RemoveBit(a, 1) == a % 2 + 2 * (a / 4)
    ensures RemoveBit(a, 2) == a % 2 + 2 * ((a / 2) % 2) + 4 * (a / 8)
  {
    assert RemoveBit(a / 2, 0) == a / 2 / 2 == a / 4 && RemoveBit(a / 4, 0) == a / 4 / 2 == a / 8;
    assert RemoveBit(a / 2, 1) == (a / 2) % 2 + 2 * RemoveBit(a / 2 / 2, 0);
    assert RemoveBit(a, 1) == a % 2 + 2 * RemoveBit(a / 2, 0) && RemoveBit(a, 2) == a % 2 + 2 * RemoveBit(a / 2, 1);
  }

  lemma PrefixElements(s: seq<nat>, i: nat)
    requires StrictlyIncreasing(s) && i < |s|
    ensures Elements(s[..i + 1]) == Elements(s[..i]) + {s[i]}
    ensures forall x :: x in Elements(s[..i]) ==> x < s[i]
    ensures CountIn(Elements(s[..i]), 0, s[i]) == i
  {
    assert s[..i + 1] == s[..i] + [s[i]];
    IncreasingSize(s[..i]);
    CountInIsSize(Elements(s[..i]), 0, s[i]);
  }

  lemma RemoveNext(a: nat, s: seq<nat>, i: nat)
    requires StrictlyIncreasing(s) && i < |s|
    ensures i <= s[i]
    ensures Compress(a, Elements(s[..i + 1]), 0) == RemoveBit(Compress(a, Elements(s[..i]), 0), s[i] - i)
  {
    PrefixElements(s, i);
    CompressOneMore(a, Elements(s[..i]), s[i], 0);
  }

  // ----- adding bits -----

  /** b after the first loop of addIntlvBits has made room for the bits s[..i]. */
  ghost function Spread(b: nat, s: seq<nat>, i: nat): nat
    requires i <= |s|
    decreases i
  {
    if i == 0 then b
    else
      var x, p := Spread(b, s, i - 1), s[i - 1];
      InsertBit(x, p, p > 0 && Bit(x, p - 1))
  }

  /** A position that repeats: room at bit 1 made twice repeats bit 0 in both places. */
  lemma RepeatedRoom(b: nat)
    ensures Spread(b, [1, 1], 2) == 7 * (b % 2) + 8 * (b / 2)
  {
    var s := [1, 1];
    InsertLow(b);
    var x := InsertBit(b, 1, Bit(b, 0));
    InsertLow(x);
    assert x % 2 == b % 2 && x / 2 == b % 2 + 2 * (b / 2);
    assert Spread(b, s, 0) == b;
    assert Spread(b, s, 1) == x;
    assert Spread(b, s, 2) == InsertBit(x, 1, Bit(x, 0));
  }

  lemma InsertLow(b: nat)
    ensures InsertBit(b, 1, Bit(b, 0)) == 3 * (b % 2) + 4 * (b / 2)
  {
    assert InsertBit(b / 2, 0, Bit(b, 0)) == 2 * (b / 2) + b % 2;
  }

  /** a after the second loop of addIntlvBits has written the lowest bits of masks[..i]. */
  ghost function Fill(masks: seq<nat>, sel: nat, a: nat, i: nat): nat
    requires i <= |masks| && NonZero(masks)
    decreases i
  {
    if i == 0 then a
    else
      var x, m := Fill(masks, sel, a, i - 1), masks[i - 1];
      SetBit(x, Lsb(m), Bit(sel, i - 1) != Parity(x, SetBit(m, Lsb(m), false)))
  }

  ghost function AddBits(masks: seq<Word>, sel: nat, b: nat): nat
    requires NonZero(masks)
  {
    Fill(masks, sel, Spread(b, Sorted(Lsbs(masks)), |masks|), |masks|)
  }

  /** The complement of one bit, taken in an int and converted to a 64-bit word. */
  function NotOneShifted(lsb: nat): (r: Word)
    requires lsb < 31
  {
    Pow2Values();
    Pow2Mono(lsb, 64);
    Not64(Pow2(lsb))
  }

  lemma AddStep(a: Addr, low: nat, s: seq<nat>, i: nat, n: nat)
    requires i < |s| && s[i] <= n == 64 - |s| + i && Low(a, n) == Spread(low, s, i)
    ensures s[i] > 0 ==> Low(InsertBits(Shl64(a, 1), s[i] - 1, 0, a), n + 1) == Spread(low, s, i + 1)
    ensures s[i] == 0 ==> Low(Shl64(a, 1), n + 1) == Spread(low, s, i + 1)
  {
    if s[i] > 0 {
      InsertBitsAdds(a, s[i], n);
    } else {
      ShiftAdds(a, n);
    }
  }

  /** The first loop of addIntlvBits. */
  method MakeRoom(lsbs: array<nat>, b: Addr) returns (a: Addr)
    requires lsbs.Length <= 64 && (forall i :: 0 <= i < lsbs.Length ==> lsbs[i] <= 64 - lsbs.Length + i)
    ensures a == Spread(Low(b, 64 - lsbs.Length), lsbs[..], lsbs.Length)
  {
    ghost var s, n := lsbs[..], 64 - lsbs.Length;
    a := b;
    for i := 0 to lsbs.Length
      invariant lsbs[..] == s
      invariant Low(a, n + i) == Spread(Low(b, n), s, i)
    {
      a := AddRound(a, lsbs[i], Low(b, n), s, i, n + i);
    }
    LowWhole(a, n + lsbs.Length);
  }

  /** The body of the first loop, on the n low bits. */
  method AddRound(a: Addr, bit: nat, ghost low: nat, ghost s: seq<nat>, ghost i: nat, ghost n: nat) returns (r: Addr)
    requires i < |s| && bit == s[i] <= n == 64 - |s| + i && Low(a, n) == Spread(low, s, i)
    ensures Low(r, n + 1) == Spread(low, s, i + 1)
  {
    AddStep(a, low, s, i, n);
    if bit > 0 {
      r := InsertBits(Shl64(a, 1), bit - 1, 0, a);
    } else {
      r := Shl64(a, 1);
    }
  }

  /** The second loop of addIntlvBits. */
  method WriteLsbs(masks: seq<Addr>, intlvMatch: Byte, b: Addr) returns (a: Addr)
    requires NonZero(masks) && (forall j :: 0 <= j < |masks| ==> Lsb(masks[j]) < 31)
    requires |masks| <= 31
    ensures a == Fill(masks, intlvMatch, b, |masks|)
  {
    a := b;
    for i := 0 to |masks|
      invariant a == Fill(masks, intlvMatch, b, i)
    {
      a := WriteLsb(masks[i], intlvMatch, i, a);
    }
  }

  /** The body of the second loop, for the mask m at index i. */
  method WriteLsb(m: Addr, intlvMatch: Byte, i: nat, b: Addr) returns (a: Addr)
    requires m > 0 && Lsb(m) < 31 && i < 31
    ensures a == SetBit(b, Lsb(m), Bit(intlvMatch, i) != Parity(b, SetBit(m, Lsb(m), false)))
  {
    var lsb := Ctz64(m);
    var intlvBit := BitRange(intlvMatch, i, i);
    var masked := And(And(b, m), NotOneShifted(lsb));
    FillStep(b, m, intlvMatch, i);
    a := InsertBits(b, lsb, lsb, Xor(intlvBit, Ones(masked)));
  }

  lemma MaskedWithoutLsb(a: Addr, m: Addr)
    requires m > 0 && Lsb(m) < 31
    ensures And(And(a, m), NotOneShifted(Lsb(m))) == And(a, SetBit(m, Lsb(m), false))
  {
    var l := Lsb(m);
    var x, y := And(And(a, m), NotOneShifted(l)), And(a, SetBit(m, l, false));
    Pow2Values();
    Pow2Mono(l, 64);
    forall i: nat ensures Bit(x, i) == Bit(y, i) {
      BitAnd(And(a, m), NotOneShifted(l), i);
      BitAnd(a, m, i);
      BitNot(Pow2(l), i);
      BitPow2(l, i);
      BitAnd(a, SetBit(m, l, false), i);
      BitSet(m, l, false, i);
      if i >= 64 { BitBound(a, 64, i); }
    }
    BitsEqual(x, y);
  }

  lemma OneBitRange(sel: Byte, i: nat)
    requires i < 31
    ensures BitRange(sel, i, i) <= 1 && (BitRange(sel, i, i) % 2 == 1) == Bit(sel, i)
  {
    BitAnd(Shr(sel, i), Mask(1), 0);
    BitShr(sel, i, 0);
    MaskBits(1, 0);
  }

  lemma XorOdd(u: nat, n: nat)
    ensures Xor(u, n) % 2 == 1 <==> u % 2 != n % 2
  {
  }

  lemma FillStep(a: Addr, m: Addr, sel: Byte, i: nat)
    requires m > 0 && Lsb(m) < 31 && i < 31
    ensures Xor(BitRange(sel, i, i), Ones(And(And(a, m), NotOneShifted(Lsb(m))))) < TWO64
    ensures InsertBits(a, Lsb(m), Lsb(m), Xor(BitRange(sel, i, i), Ones(And(And(a, m), NotOneShifted(Lsb(m)))))) ==
            SetBit(a, Lsb(m), Bit(sel, i) != Parity(a, SetBit(m, Lsb(m), false)))
  {
    var masked := And(And(a, m), NotOneShifted(Lsb(m)));
    var u, n := BitRange(sel, i, i), Ones(masked);
    MaskedWithoutLsb(a, m);
    OneBitRange(sel, i);
    assert Xor(u, n) < TWO64 by {
      Pow2Values();
      OnesBound(masked, 64);
      XorBound(u, n);
    }
    XorOdd(u, n);
    InsertBitsSets(a, Lsb(m), Xor(u, n));
  }
}
