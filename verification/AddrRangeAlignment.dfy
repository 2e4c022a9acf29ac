/**
 * getOffset() and size() assume that a span is cut at boundaries of the
 * interleaving pattern.  Here: on any other nonempty span they are wrong for
 * at least one of the stripes.
 */
module AddrRangeAlignment {
  import opened Bits
  import opened Bitfield
  import opened Interleave
  import opened AddrRanges
  import opened AddrRangeLaws

  ghost predicate IsOffset(r: AddrRange, o: nat)
    requires DistinctLsbs(r.masks)
  {
    exists a: Addr :: r.Has(a) && r.Offset(a) == o
  }

  /** The offsets of the addresses of r are the numbers below the size of r. */
  ghost predicate Numbered(r: AddrRange)
    requires DistinctLsbs(r.masks)
  {
    && (forall a: Addr :: r.Has(a) ==> r.Offset(a) < r.Size())
    && (forall o: nat :: o < r.Size() ==> IsOffset(r, o))
  }

  /** The stripe m of the span of r. */
  function Stripe(r: AddrRange, m: Byte): AddrRange
  {
    r.(intlvMatch := m)
  }

  ghost predicate AllNumbered(r: AddrRange)
    requires DistinctLsbs(r.masks)
  {
    forall m: Byte :: m < Pow2(|r.masks|) ==> Numbered(Stripe(r, m))
  }

  lemma AlignedIsNumbered(r: AddrRange)
    requires r.WellFormed() && r.AlignedBounds()
    ensures Numbered(r)
  {
    forall a: Addr | r.Has(a) ensures r.Offset(a) < r.Size() { OffsetBelowSize(r, a); }
    forall o: nat | o < r.Size() ensures IsOffset(r, o) { OffsetOnto(r, o); }
  }

  lemma OwnStripe(r: AddrRange, x: nat) returns (m: Byte)
    requires |r.masks| <= 8
    ensures m == Sel(r.masks, x) < Pow2(|r.masks|)
  {
    SelBits(r.masks, x, 0);
    Pow2Values();
    Pow2Mono(|r.masks|, 8);
    m := Sel(r.masks, x);
  }

  lemma OffsetBelow(r: AddrRange, u: Addr)
    requires DistinctLsbs(r.masks) && |r.masks| <= 8 && AllNumbered(r) && r.start <= u < r.end
    ensures Sub64(Compressed(r.masks, u), Compressed(r.masks, r.start)) < r.Size()
  {
    var m := OwnStripe(r, u);
    assert Numbered(Stripe(r, m)) && Stripe(r, m).Has(u);
  }

  lemma OffsetHolder(r: AddrRange, m: Byte, o: nat) returns (a: Addr)
    requires DistinctLsbs(r.masks) && AllNumbered(r) && m < Pow2(|r.masks|) && o < r.Size()
    ensures r.start <= a < r.end && Sel(r.masks, a) == m
    ensures Sub64(Compressed(r.masks, a), Compressed(r.masks, r.start)) == o
  {
    assert Numbered(Stripe(r, m)) && o < Stripe(r, m).Size();
    assert IsOffset(Stripe(r, m), o);
    a :| Stripe(r, m).Has(a) && Stripe(r, m).Offset(a) == o;
  }

  /** Changing only dropped bits of an address of the span does not leave the span. */
  lemma SpanClosed(r: AddrRange, u: Addr, x: Addr)
    requires DistinctLsbs(r.masks) && |r.masks| <= 8 && AllNumbered(r)
    requires r.start <= u < r.end && Compressed(r.masks, x) == Compressed(r.masks, u)
    ensures r.start <= x < r.end
  {
    OffsetBelow(r, u);
    var m := OwnStripe(r, x);
    var a := OffsetHolder(r, m, Sub64(Compressed(r.masks, u), Compressed(r.masks, r.start)));
    SubInjective(Compressed(r.masks, a), Compressed(r.masks, u), Compressed(r.masks, r.start));
    SameAddress(r.masks, a, x);
  }

  lemma SubInjective(x: Addr, y: Addr, z: Addr)
    requires Sub64(x, z) == Sub64(y, z)
    ensures x == y
  {
  }

  // ----- single bits as amounts -----

  lemma {:induction false} SetBitAmount(a: nat, p: nat)
    ensures !Bit(a, p) ==> SetBit(a, p, true) == a + Pow2(p)
    ensures Bit(a, p) ==> Pow2(p) <= a && SetBit(a, p, false) == a - Pow2(p)
    decreases p
  {
    if p > 0 { SetBitAmount(a / 2, p - 1); }
  }

  lemma SetBitFits(a: Addr, p: nat, g: bool)
    requires p < 64
    ensures SetBit(a, p, g) < TWO64
  {
    InsertBitsSets(a, p, if g then 1 else 0);
  }

  /** Clearing a bit that is not dropped lowers the compressed address. */
  lemma {:induction false} CompressCleared(a: nat, drop: set<nat>, l: nat, p: nat)
    requires p <= l && l !in drop && Bit(a, l - p)
    ensures Compress(SetBit(a, l - p, false), drop, p) < Compress(a, drop, p)
    decreases l - p
  {
    var b := SetBit(a, l - p, false);
    CompressStep(a, drop, p);
    CompressStep(b, drop, p);
    SetBitHalf(a, l - p, false);
    if p < l { CompressCleared(a / 2, drop, l, p + 1); }
  }

  lemma {:induction false} AlignedBits(x: nat, n: nat)
    requires forall i :: 0 <= i < n ==> !Bit(x, i)
    ensures Aligned(x, n)
    decreases n
  {
    if n > 0 {
      assert !Bit(x, 0);
      forall i | 0 <= i < n - 1 ensures !Bit(x / 2, i) { assert !Bit(x, i + 1); }
      AlignedBits(x / 2, n - 1);
    }
  }

  lemma {:induction false} AlignedPlus(x: nat, c: nat, n: nat, i: nat)
    requires Aligned(x, n) && c < Pow2(n) && i < n
    ensures Bit(x + c, i) == Bit(c, i)
    decreases n
  {
    assert (x + c) % 2 == c % 2 && (x + c) / 2 == x / 2 + c / 2;
    if i > 0 { AlignedPlus(x / 2, c / 2, n - 1, i - 1); }
  }

  /** The last boundary at or below e is at or above every boundary below e. */
  lemma {:induction false} LastBoundary(s: nat, e: nat, n: nat)
    requires Aligned(s, n) && s <= e
    ensures s <= e - Low(e, n) && Aligned(e - Low(e, n), n)
    decreases n
  {
    if n > 0 {
      LastBoundary(s / 2, e / 2, n - 1);
      var half := e / 2 - Low(e / 2, n - 1);
      assert e - Low(e, n) == 2 * half && s == 2 * (s / 2);
      AlignedDouble(half, n);
    }
  }

  lemma AlignedDouble(x: nat, n: nat)
    requires n > 0 && Aligned(x, n - 1)
    ensures Aligned(2 * x, n)
  {
    assert (2 * x) / 2 == x;
  }

  // ----- the start -----

  lemma StartDropped(r: AddrRange, d: nat)
    requires DistinctLsbs(r.masks) && |r.masks| <= 8 && AllNumbered(r) && r.start < r.end
    requires d in LsbSet(r.masks)
    ensures !Bit(r.start, d)
  {
    if Bit(r.start, d) {
      LsbBelow64(r.masks, d);
      SetBitFits(r.start, d, false);
      SetBitAmount(r.start, d);
      CompressWritten(r.start, LsbSet(r.masks), d, false, 0);
      SpanClosed(r, r.start, SetBit(r.start, d, false));
    }
  }

  lemma StartKept(r: AddrRange, d: nat)
    requires DistinctLsbs(r.masks) && |r.masks| <= 8 && AllNumbered(r) && r.start < r.end
    requires d !in LsbSet(r.masks) && d < Top(r.masks)
    ensures !Bit(r.start, d)
  {
    if Bit(r.start, d) {
      var drop, h := LsbSet(r.masks), Top(r.masks) - 1;
      StartDropped(r, h);
      LsbBelow64(r.masks, h);
      var x := SetBit(r.start, h, true);
      SetBitFits(r.start, h, true);
      SetBitAmount(r.start, h);
      CompressWritten(r.start, drop, h, true, 0);
      SpanClosed(r, r.start, x);
      BitSet(r.start, h, true, d);
      ClearedBelow(r, x, d, h);
    }
  }

  /** No address of the span is as far above the start as bit h and has a bit below h that is not dropped. */
  lemma ClearedBelow(r: AddrRange, x: Addr, d: nat, h: nat)
    requires DistinctLsbs(r.masks) && |r.masks| <= 8 && AllNumbered(r) && r.start < r.end
    requires d !in LsbSet(r.masks) && d < h && r.start + Pow2(h) == x < r.end && Bit(x, d)
    ensures Compressed(r.masks, x) != Compressed(r.masks, r.start)
  {
    var y := SetBit(x, d, false);
    SetBitAmount(x, d);
    Pow2Mono(d, h);
    CompressCleared(x, LsbSet(r.masks), d, 0);
    OffsetBelow(r, y);
    if Compressed(r.masks, x) == Compressed(r.masks, r.start) { OffsetTooBig(r, y); }
  }

  lemma OffsetTooBig(r: AddrRange, y: Addr)
    requires DistinctLsbs(r.masks) && r.start < r.end && Compressed(r.masks, y) < Compressed(r.masks, r.start)
    ensures Sub64(Compressed(r.masks, y), Compressed(r.masks, r.start)) > r.Size()
  {
  }

  lemma StartAligned(r: AddrRange)
    requires DistinctLsbs(r.masks) && |r.masks| <= 8 && AllNumbered(r) && r.start < r.end
    ensures Aligned(r.start, Top(r.masks))
  {
    forall d | 0 <= d < Top(r.masks) ensures !Bit(r.start, d) {
      if d in LsbSet(r.masks) { StartDropped(r, d); } else { StartKept(r, d); }
    }
    AlignedBits(r.start, Top(r.masks));
  }

  // ----- the end -----

  /** Below an end that is no boundary, an address that bit n - 1 takes to or past the end. */
  lemma Straddle(s: nat, e: nat, n: nat) returns (u: nat)
    requires Aligned(s, n) && s < e && !Aligned(e, n)
    ensures n > 0 && s <= u < e <= SetBit(u, n - 1, true)
  {
    LastBoundary(s, e, n);
    LowBound(e, n);
    var h, base := n - 1, e - Low(e, n);
    var c := if Low(e, n) <= Pow2(h) then 0 else Pow2(h) - 1;
    AlignedPlus(base, c, n, h);
    BitZero(h);
    BitLowMask(h, h);
    u := base + c;
    SetBitAmount(u, h);
  }

  lemma EndAligned(r: AddrRange)
    requires DistinctLsbs(r.masks) && |r.masks| <= 8 && AllNumbered(r) && r.start < r.end
    requires Aligned(r.start, Top(r.masks))
    ensures Aligned(r.end, Top(r.masks))
  {
    if !Aligned(r.end, Top(r.masks)) {
      var u := Straddle(r.start, r.end, Top(r.masks));
      var h := Top(r.masks) - 1;
      LsbBelow64(r.masks, h);
      SetBitFits(u, h, true);
      CompressWritten(u, LsbSet(r.masks), h, true, 0);
      SpanClosed(r, u, SetBit(u, h, true));
    }
  }

  /** Every stripe of a span is numbered from 0 to its size exactly when the span is empty or aligned. */
  lemma NumberedWhenAligned(r: AddrRange)
    requires DistinctLsbs(r.masks) && |r.masks| <= 8 && r.start <= r.end
    ensures AllNumbered(r) <==> r.start == r.end || r.AlignedBounds()
  {
    if AllNumbered(r) && r.start < r.end {
      StartAligned(r);
      EndAligned(r);
    }
    if r.AlignedBounds() {
      forall m: Byte | m < Pow2(|r.masks|) ensures Numbered(Stripe(r, m)) { AlignedIsNumbered(Stripe(r, m)); }
    }
    if r.start == r.end { assert r.Size() == 0 by { ShrZero(|r.masks|); } }
  }

  /** A stripe of an unaligned span whose only address gets an offset that is not below the size. */
  lemma UnalignedMisnumbered()
    ensures var r := AddrRange(1, 3, [1], 0);
            && r.WellFormed() && !r.AlignedBounds() && r.Size() == 1
            && (forall a: nat :: r.Has(a) <==> a == 2) && r.Offset(2) == 1
  {
    var r := AddrRange(1, 3, [1], 0);
    OddMask(1);
    SelOdd(1, 1);
    SelOdd(1, 2);
    assert Ones(And(1, 1)) == 1 && Ones(And(2, 1)) == 0;
    forall a: nat ensures r.Has(a) <==> a == 2 { assert 1 <= a < 3 ==> a == 1 || a == 2; }
    CompressStep(1, {0}, 0);
    CompressStep(2, {0}, 0);
    CompressAbove(1, {0}, 1);
    CompressAbove(0, {0}, 1);
  }

  lemma {:induction false} ShrZero(n: nat)
    ensures Shr(0, n) == 0
  {
    if n > 0 { ShrZero(n - 1); }
  }
}
