/**
 * The tests between ranges of base/addr_range.hh against the sets of addresses
 * that the ranges stand for, and the constructors that build ranges from others.
 */
module AddrRangeSets {
  import opened Bits
  import opened Bitfield
  import opened Interleave
  import opened AddrRanges
  import opened AddrRangeLaws

  /** A span with at least one address, all of which are in the range if it has no masks. */
  predicate Spanned(r: AddrRange)
  {
    r.start < r.end && (!r.Interleaved() ==> r.intlvMatch == 0)
  }

  // ----- isSubset -----

  ghost predicate SubsetOf(q: AddrRange, r: AddrRange)
  {
    forall a: nat :: q.Has(a) ==> r.Has(a)
  }

  lemma {:induction false} ParityShifted(a: nat, m: nat, l: nat)
    requires m > 0 && l <= Lsb(m)
    ensures Parity(a, m) == Parity(Shr(a, l), Shr(m, l))
    decreases l
  {
    if l > 0 {
      ParityStep(a, m);
      ParityShifted(a / 2, m / 2, l - 1);
    }
  }

  /** Addresses of the same granule have the same selector. */
  lemma {:induction false} SelOfGranule(masks: seq<nat>, a: nat, b: nat, l: nat)
    requires NonZero(masks) && (forall j :: 0 <= j < |masks| ==> l <= Lsb(masks[j]))
    requires Shr(a, l) == Shr(b, l)
    ensures Sel(masks, a) == Sel(masks, b)
    decreases |masks|
  {
    if |masks| > 0 {
      ParityShifted(a, masks[0], l);
      ParityShifted(b, masks[0], l);
      SelOfGranule(masks[1..], a, b, l);
    }
  }

  lemma {:induction false} ShrNear(a: nat, b: nat, l: nat)
    requires a <= b
    ensures Shr(a, l) <= Shr(b, l)
    ensures b - a <= Pow2(l) ==> Shr(b, l) <= Shr(a, l) + 1
    decreases l
  {
    if l > 0 { ShrNear(a / 2, b / 2, l - 1); }
  }

  /**
   * isSubset() of a nonempty contiguous range is never wrongly true; it is wrongly
   * false exactly on the subsets that are longer than a granule.
   */
  lemma IsSubsetExact(q: AddrRange, r: AddrRange)
    requires Spanned(q) && !q.Interleaved() && r.HasGranule() && (!r.Interleaved() ==> r.intlvMatch == 0)
    ensures q.IsSubset(r) <==> SubsetOf(q, r) && (r.Interleaved() ==> q.Size() <= r.Granule())
  {
    assert q.Has(q.start) && q.Has(q.end - 1);
    if q.IsSubset(r) && r.Interleaved() {
      forall a: nat | q.Has(a) ensures r.Has(a) { BetweenEnds(q, r, a); }
    }
  }

  lemma BetweenEnds(q: AddrRange, r: AddrRange, a: nat)
    requires !q.Interleaved() && q.start <= a < q.end && r.HasGranule() && r.Interleaved() && q.IsSubset(r)
    ensures r.Has(a)
  {
    var l, last := LowestBit(r.masks), q.end - 1;
    ShrNear(q.start, a, l);
    ShrNear(a, last, l);
    ShrNear(q.start, last, l);
    if Shr(a, l) == Shr(q.start, l) {
      SelOfGranule(r.masks, a, q.start, l);
    } else {
      SelOfGranule(r.masks, a, last, l);
    }
  }

  /** The granularity of a contiguous range is the number of its addresses. */
  lemma ContiguousGranule(r: AddrRange)
    requires !r.Interleaved() && r.start <= r.end && r.intlvMatch == 0
    ensures r.Granule() == r.end - r.start == |AddressSet(r)|
  {
    SizeIsCount(r);
  }

  /**
   * The granularity of an interleaved range is the largest power of two whose blocks lie within one
   * stripe: the blocks of that size do, and the first two of them are in different stripes.
   */
  lemma GranuleIsLargest(r: AddrRange)
    requires r.Interleaved() && NonZero(r.masks)
    ensures forall a, b: nat :: a / r.Granule() == b / r.Granule() ==> Sel(r.masks, a) == Sel(r.masks, b)
    ensures Sel(r.masks, 0) != Sel(r.masks, r.Granule())
  {
    var l, g := LowestBit(r.masks), r.Granule();
    forall a, b: nat | a / g == b / g ensures Sel(r.masks, a) == Sel(r.masks, b) {
      ShrIsDiv(a, l);
      ShrIsDiv(b, l);
      SelOfGranule(r.masks, a, b, l);
    }
    var t :| 0 <= t < |r.masks| && l == Lsb(r.masks[t]);
    SelBits(r.masks, 0, t);
    SelBits(r.masks, g, t);
    LsbBits(r.masks[t], l);
    ParityAtBit(r.masks[t], l);
  }

  /** A single bit has odd parity under a mask that contains it, and zero has even parity. */
  lemma {:induction false} ParityAtBit(m: nat, l: nat)
    requires Bit(m, l)
    ensures Parity(Pow2(l), m) && !Parity(0, m)
    decreases l
  {
    ParityStep(Pow2(l), m);
    if l > 0 { ParityAtBit(m / 2, l - 1); }
  }

  /** size() is the span divided by the number of stripes, rounded down. */
  lemma SizeRoundsDown(r: AddrRange)
    requires r.start <= r.end
    ensures Shl(r.Size(), |r.masks|) <= r.end - r.start < Shl(r.Size() + 1, |r.masks|)
  {
    ShrRoundsDown(r.end - r.start, |r.masks|);
  }

  lemma {:induction false} ShrRoundsDown(x: nat, k: nat)
    ensures Shl(Shr(x, k), k) <= x < Shl(Shr(x, k) + 1, k)
    decreases k
  {
    if k > 0 { ShrRoundsDown(x / 2, k - 1); }
  }

  /** Two neighbouring addresses of one stripe that isSubset() does not recognise as a subset. */
  lemma IsSubsetMisses()
    ensures var q, r := AddrRange(1, 3, [], 0), AddrRange(0, 4, [3], 1);
            q.WellFormed() && r.WellFormed() && r.AlignedBounds() && r.HasGranule() && SubsetOf(q, r) && !q.IsSubset(r)
  {
    var q, r := AddrRange(1, 3, [], 0), AddrRange(0, 4, [3], 1);
    OddMask(3);
    SelOdd(3, 1);
    SelOdd(3, 2);
    assert Ones(And(1, 3)) == 1 && Ones(And(2, 3)) == 1;
    forall a: nat | q.Has(a) ensures r.Has(a) { assert a == 1 || a == 2; }
  }

  /** The single-address range RangeSize(a, 1), whose end wraps on the last address. */
  function RangeOfAddress(a: Addr): (q: AddrRange)
  {
    AddrRange(a, (a + 1) % TWO64, [], 0)
  }

  /** On single addresses isSubset() is contains(), except for the last address and a contiguous range. */
  lemma SingleAddress(a: Addr, r: AddrRange)
    requires r.HasGranule() && (!r.Interleaved() ==> r.intlvMatch == 0)
    ensures (RangeOfAddress(a).IsSubset(r) <==> r.Has(a)) <==> (a != MaxAddr || r.Interleaved())
  {
  }

  // ----- intersects -----

  ghost predicate ShareAddress(q: AddrRange, r: AddrRange)
  {
    exists a: nat :: q.Has(a) && r.Has(a)
  }

  ghost predicate Nonempty(r: AddrRange)
  {
    exists a: nat :: r.Has(a)
  }

  /** When a size-1 stripe is reduced to its start, the start is one of its addresses. */
  predicate StartsRight(r: AddrRange)
  {
    r.Interleaved() && r.Size() == 1 ==> r.Has(r.start)
  }

  /** A stripe of computed size 1 holds its start and nothing else; any other stripe holds something. */
  ghost predicate SizedRight(r: AddrRange)
  {
    r.Interleaved() ==> if r.Size() == 1 then forall a: nat :: r.Has(a) <==> a == r.start else Nonempty(r)
  }

  lemma IntersectsExact(q: AddrRange, r: AddrRange)
    requires Spanned(q) && Spanned(r) && q.Comparable(r) && SizedRight(r)
    ensures q.Intersects(r) <==> ShareAddress(q, r)
  {
    if q.start >= r.end || q.end <= r.start {
    } else if !q.Interleaved() && !r.Interleaved() {
      var a := if q.start < r.start then r.start else q.start;
      assert q.Has(a) && r.Has(a);
    } else if r.Size() == 1 {
      OnlyStart(r);
    } else {
      assert q.MergesWith(r);
    }
  }

  lemma OnlyStart(r: AddrRange)
    requires Spanned(r) && r.Size() == 1 && SizedRight(r)
    ensures forall a: nat :: r.Has(a) <==> a == r.start
  {
  }

  ghost predicate IntersectsRight(r: AddrRange)
  {
    forall q: AddrRange :: Spanned(q) && q.Comparable(r) ==> (q.Intersects(r) <==> ShareAddress(q, r))
  }

  /**
   * intersects(r) means sharing an address with r, for every range that it can compare with r,
   * exactly when r is not empty and, if its computed size is 1, is just its start.
   */
  lemma IntersectsRightWhen(r: AddrRange)
    requires Spanned(r)
    ensures IntersectsRight(r) <==> SizedRight(r)
  {
    if SizedRight(r) {
      forall q: AddrRange | Spanned(q) && q.Comparable(r) ensures q.Intersects(r) <==> ShareAddress(q, r) {
        IntersectsExact(q, r);
      }
    } else {
      var q := IntersectsMisses(r);
    }
  }

  /** A range that intersects() is wrong about. */
  lemma IntersectsMisses(r: AddrRange) returns (q: AddrRange)
    requires Spanned(r) && !SizedRight(r)
    ensures Spanned(q) && q.Comparable(r) && q.Intersects(r) != ShareAddress(q, r)
  {
    if r.Size() == 1 {
      var a: nat :| r.Has(a) != (a == r.start);
      q := AddrRange(a, a + 1, [], 0);
      assert q.Has(a);
    } else {
      q := r;
    }
  }

  /** A stripe that shares addresses with itself, which intersects() does not see. */
  lemma IntersectsMissesStart()
    ensures var r := AddrRange(0, 2, [1], 1);
            Proper(r) && !SizedRight(r) && r.Comparable(r) && ShareAddress(r, r) && !r.Intersects(r)
  {
    var r := AddrRange(0, 2, [1], 1);
    OddMask(1);
    SelOdd(1, 0);
    SelOdd(1, 1);
    assert Ones(And(1, 1)) == 1 && Ones(And(0, 1)) == 0;
    assert r.Has(1) && !r.Has(0);
  }

  /** Two stripes of one span that share no address, which intersects() takes to intersect. */
  lemma IntersectsInventsAddress()
    ensures var q, r := AddrRange(0, 2, [1], 0), AddrRange(0, 2, [1], 1);
            && Nonempty(q) && Nonempty(r) && q.HasGranule() && r.HasGranule() && q.MergesWith(r) && q != r
            && !ShareAddress(q, r) && q.Comparable(r) && q.Intersects(r) && !r.Intersects(r)
  {
    var q, r := AddrRange(0, 2, [1], 0), AddrRange(0, 2, [1], 1);
    SelOdd(1, 0);
    SelOdd(1, 1);
    assert Ones(And(1, 1)) == 1 && Ones(And(0, 1)) == 0;
    assert q.Has(0) && r.Has(1) && !r.Has(0);
  }

  /** A range as the interleaving code expects it, with at least one granule per stripe. */
  ghost predicate Proper(r: AddrRange)
  {
    r.WellFormed() && r.AlignedBounds() && r.start < r.end
  }

  lemma ProperNonempty(r: AddrRange)
    requires Proper(r)
    ensures r.Size() >= 1 && r.Has(AddressAt(r, 0)) && AddressAt(r, 0) < TWO64
  {
    AlignedScale(r.masks, r.start);
    AlignedScale(r.masks, r.end);
    CompressedBounds(r, r.start);
    SizeIsDifference(r);
    OffsetOnto(r, 0);
  }

  lemma SizeOne(r: AddrRange, a: nat)
    requires Proper(r) && r.Size() == 1 && r.Has(r.start) && r.Has(a)
    ensures a == r.start
  {
    OffsetBelowSize(r, a);
    OffsetBelowSize(r, r.start);
    if r.start < a { OffsetIncreasing(r, r.start, a); }
  }

  /** For an aligned range only the start is in question. */
  lemma ProperSizedRight(r: AddrRange)
    requires Proper(r)
    ensures SizedRight(r) <==> StartsRight(r)
  {
    ProperNonempty(r);
    if r.Interleaved() && r.Size() == 1 && r.Has(r.start) {
      forall a: nat | r.Has(a) ensures a == r.start { SizeOne(r, a); }
    }
  }

  // ----- the stripes of a span -----

  /** For up to 8 masks, every address of the span is in exactly one stripe. */
  lemma StripesPartition(start: Addr, end: Addr, masks: seq<Addr>, a: nat)
    requires |masks| <= 8 && start <= a < end
    ensures exists m: Byte :: m < Pow2(|masks|) && AddrRange(start, end, masks, m).Has(a)
    ensures forall m, n: Byte :: AddrRange(start, end, masks, m).Has(a) && AddrRange(start, end, masks, n).Has(a) ==> m == n
  {
    SelBits(masks, a, 0);
    Pow2Values();
    Pow2Mono(|masks|, 8);
    var m: Byte := Sel(masks, a);
    assert AddrRange(start, end, masks, m).Has(a);
  }

  /** Every stripe of an aligned span has an address. */
  lemma StripeMember(start: nat, end: nat, masks: seq<nat>, sel: nat) returns (a: nat)
    requires DistinctLsbs(masks) && sel < Pow2(|masks|)
    requires start < end && Aligned(start, Top(masks)) && Aligned(end, Top(masks))
    ensures start <= a < end && Sel(masks, a) == sel
  {
    var n, drop, f := Top(masks), LsbSet(masks), Compressed(masks, start);
    a := Expand(masks, sel, f, 0);
    ExpandStripe(masks, sel, f, 0);
    CompressExpand(masks, sel, f, 0);
    SelIsStripe(masks, sel, a);
    CompressOrder(a, start, drop, 0, n);
    CompressOrder(a, end, drop, 0, n);
    CompressOrder(start, end, drop, 0, n);
  }

  /** The sizes of the stripes of an aligned span add up to the span. */
  lemma StripesFillSpan(r: AddrRange)
    requires r.WellFormed() && r.AlignedBounds()
    ensures Shl(r.Size(), |r.masks|) == r.end - r.start
  {
    var c, d := Compressed(r.masks, r.start), Compressed(r.masks, r.end);
    SizeIsDifference(r);
    AlignedScale(r.masks, r.start);
    AlignedScale(r.masks, r.end);
    CompressOrder(r.end, r.start, LsbSet(r.masks), 0, Top(r.masks));
    ShlDifference(c, d, |r.masks|);
  }

  lemma ShlDifference(c: nat, d: nat, k: nat)
    requires c <= d
    ensures Shl(d - c, k) == Shl(d, k) - Shl(c, k)
  {
    ShlAdd(c, d - c, k);
  }

  // ----- the constructor from masks -----

  function Masked(start: Addr, end: Addr, masks: seq<Addr>, m: Byte): (res: Result<AddrRange>)
    requires |masks| < 64
  {
    if |masks| > 0 && m >= Pow2(|masks|) then Fatal else Ok(AddrRange(start, end, masks, m))
  }

  /** The check of the match value covers every range but those without masks, which a nonzero match leaves empty. */
  lemma MaskedWellFormed(start: Addr, end: Addr, masks: seq<Addr>, m: Byte)
    requires DistinctLsbs(masks) && |masks| <= 31
    ensures var res := Masked(start, end, masks, m);
            && (res.Fatal? <==> |masks| > 0 && m >= Pow2(|masks|))
            && (res.Ok? ==> (res.value.WellFormed() <==> |masks| > 0 || m == 0))
            && (res.Ok? && !res.value.WellFormed() ==> forall a: nat :: !res.value.Has(a))
  {
  }

  /**
   * With masks, the constructor refuses exactly the match values that are the selector of no address, and
   * otherwise makes the range of the addresses of the span with that selector.
   */
  lemma MaskedRefusesWhen(start: Addr, end: Addr, masks: seq<Addr>, m: Byte)
    requires DistinctLsbs(masks) && 0 < |masks| < 64
    ensures var res := Masked(start, end, masks, m);
            && (res.Fatal? <==> forall a: Addr :: Sel(masks, a) != m)
            && (res.Ok? ==> forall a: nat :: res.value.Has(a) <==> start <= a < end && Sel(masks, a) == m)
  {
    if m < Pow2(|masks|) {
      var a := FirstOfStripe(masks, m);
    } else {
      forall a: Addr ensures Sel(masks, a) != m { SelBits(masks, a, 0); }
    }
  }

  // ----- the merging constructor -----

  /** What the merging constructor accepts: all stripes of one span in order; the count of a uint8 wraps. */
  ghost predicate Mergeable(ranges: seq<AddrRange>)
    requires |ranges| > 0
  {
    && |ranges| == Pow2(|ranges[0].masks|)
    && forall i :: 0 <= i < |ranges| ==> ranges[0].MergesWith(ranges[i]) && ranges[i].intlvMatch == i % 256
  }

  method Merge(ranges: seq<AddrRange>) returns (res: Result<AddrRange>)
    requires |ranges| > 0 ==> |ranges[0].masks| < 64
    ensures |ranges| == 0 ==> res == Ok(AddrRange(1, 0, [], 0))
    ensures |ranges| == 1 ==> res == Ok(ranges[0])
    ensures |ranges| > 1 ==>
              res == if Mergeable(ranges) then Ok(AddrRange(ranges[0].start, ranges[0].end, [], 0)) else Fatal
  {
    var r := AddrRange(1, 0, [], 0);
    if |ranges| > 0 {
      r := ranges[0];
    }
    if |ranges| > 1 {
      if |ranges| != Pow2(|r.masks|) {
        return Fatal;
      }
      var count: Byte := 0;
      for i := 0 to |ranges|
        invariant count == i % 256
        invariant forall j :: 0 <= j < i ==> r.MergesWith(ranges[j]) && ranges[j].intlvMatch == j % 256
      {
        if !r.MergesWith(ranges[i]) {
          return Fatal;
        }
        if ranges[i].intlvMatch != count {
          return Fatal;
        }
        NextCount(i);
        count := (count + 1) % 256;
      }
      r := r.(masks := [], intlvMatch := 0);
    }
    return Ok(r);
  }

  lemma NextCount(i: nat)
    ensures (i % 256 + 1) % 256 == (i + 1) % 256
  {
  }

  /** All stripes of a span with up to 8 masks, in the order of their match values, are merged. */
  lemma StripesMerge(start: Addr, end: Addr, masks: seq<Addr>, ranges: seq<AddrRange>)
    requires 0 < |masks| <= 8 && |ranges| == Pow2(|masks|)
    requires forall i :: 0 <= i < |ranges| ==> ranges[i].start == start && ranges[i].end == end && ranges[i].masks == masks && ranges[i].intlvMatch == i
    ensures Mergeable(ranges)
  {
    Pow2Values();
    Pow2Mono(|masks|, 8);
  }

  ghost predicate IsUnion(r: AddrRange, ranges: seq<AddrRange>)
  {
    forall a: nat :: r.Has(a) <==> exists i :: 0 <= i < |ranges| && ranges[i].Has(a)
  }

  /** The range at the position of an address's selector has the address, if the count reaches that far. */
  lemma MergeCovers(ranges: seq<AddrRange>, a: nat)
    requires |ranges| > 1 && Mergeable(ranges) && ranges[0].start <= a < ranges[0].end
    ensures Sel(ranges[0].masks, a) < 256 <==> exists i :: 0 <= i < |ranges| && ranges[i].Has(a)
  {
    var s := Sel(ranges[0].masks, a);
    SelBits(ranges[0].masks, a, 0);
    if s < 256 { assert ranges[s].Has(a); }
  }

  lemma FewMasks(masks: seq<nat>, a: nat)
    requires |masks| <= 8
    ensures Sel(masks, a) < 256
  {
    Pow2Values();
    SelBits(masks, a, 0);
    Pow2Mono(|masks|, 8);
  }

  /** With more than 8 masks, an aligned span has an address of selector 256. */
  lemma MergeMisses(r: AddrRange) returns (a: nat)
    requires Proper(r) && |r.masks| > 8
    ensures r.start <= a < r.end && Sel(r.masks, a) == 256
  {
    Pow2Values();
    Pow2Mono(8, |r.masks|);
    a := StripeMember(r.start, r.end, r.masks, 256);
  }

  /** The selectors of the span are values that the count of the merging constructor takes. */
  ghost predicate AllCounted(r: AddrRange)
  {
    forall a: nat :: r.start <= a < r.end ==> Sel(r.masks, a) < 256
  }

  lemma UnionWhenCounted(ranges: seq<AddrRange>)
    requires |ranges| > 1 && Mergeable(ranges)
    ensures IsUnion(AddrRange(ranges[0].start, ranges[0].end, [], 0), ranges) <==> AllCounted(ranges[0])
  {
    var r := ranges[0];
    var merged := AddrRange(r.start, r.end, [], 0);
    if IsUnion(merged, ranges) {
      forall a: nat | r.start <= a < r.end ensures Sel(r.masks, a) < 256 {
        assert merged.Has(a);
        MergeCovers(ranges, a);
      }
    }
    if AllCounted(r) {
      forall a: nat ensures merged.Has(a) <==> exists i :: 0 <= i < |ranges| && ranges[i].Has(a) {
        if r.start <= a < r.end { MergeCovers(ranges, a); }
      }
    }
  }

  /**
   * The merged range is the union of the ranges exactly when every selector of the span fits in
   * the count: with up to 8 masks always, and with more never if the span is aligned.
   */
  lemma MergeIsUnion(ranges: seq<AddrRange>)
    requires |ranges| > 1 && Mergeable(ranges)
    ensures var r := ranges[0];
            var union := IsUnion(AddrRange(r.start, r.end, [], 0), ranges);
            && (union <==> AllCounted(r))
            && (|r.masks| <= 8 ==> union)
            && (Proper(r) && |r.masks| > 8 ==> !union)
  {
    var r := ranges[0];
    UnionWhenCounted(ranges);
    if |r.masks| <= 8 {
      forall a: nat ensures Sel(r.masks, a) < 256 { FewMasks(r.masks, a); }
    } else if Proper(r) {
      var a := MergeMisses(r);
    }
  }

  /** 512 ranges with 9 masks that are merged although address 256 of the span is in none of them. */
  lemma MergeLosesAddress(masks: seq<Addr>, ranges: seq<AddrRange>)
    requires |masks| == 9 && (forall j :: 0 <= j < 9 ==> masks[j] == Pow2(j))
    requires |ranges| == 512 && (forall i :: 0 <= i < 512 ==> ranges[i] == AddrRange(0, 512, masks, i % 256))
    ensures Mergeable(ranges) && forall i :: 0 <= i < 512 ==> !ranges[i].Has(256)
  {
    Pow2Values();
    assert Pow2(9) == 512;
    SelectorTooBig(masks, 256, 8);
  }

  lemma SelectorTooBig(masks: seq<Addr>, a: nat, j: nat)
    requires j < |masks| && masks[j] == a == Pow2(j)
    ensures Sel(masks, a) >= a
  {
    ParityOfBit(a, j);
    BitPow2(j, j);
    SelBits(masks, a, j);
    if Sel(masks, a) < a { BitBound(Sel(masks, a), j, j); }
  }

  // ----- the legacy constructor -----

  /** The shift counts of the loop are those of bits of a 64-bit word. */
  predicate FieldsFit(high: Byte, xorHigh: Byte, bits: Byte)
  {
    bits > 0 ==> bits < 64 && bits <= high + 1 && high < 64 && (xorHigh > 0 ==> bits <= xorHigh + 1 && xorHigh < 64)
  }

  /** A shift by high - i is defined. */
  predicate ShiftAt(high: nat, i: nat)
  {
    i <= high < 64 + i
  }

  /** The fields fit exactly when every shift that the constructor makes is defined. */
  lemma FieldsFitWhen(high: Byte, xorHigh: Byte, bits: Byte)
    ensures FieldsFit(high, xorHigh, bits) <==>
            bits < 64 && (forall i: nat :: i < bits ==> ShiftAt(high, i)) && (xorHigh > 0 ==> forall i: nat :: i < bits ==> ShiftAt(xorHigh, i))
  {
    FieldEnds(high, bits);
    FieldEnds(xorHigh, bits);
  }

  lemma FieldEnds(high: Byte, bits: Byte)
    ensures (forall i: nat :: i < bits ==> ShiftAt(high, i)) <==> (bits > 0 ==> bits <= high + 1 && high < 64)
  {
    if bits > 0 && forall i: nat :: i < bits ==> ShiftAt(high, i) { assert ShiftAt(high, 0) && ShiftAt(high, bits - 1); }
  }

  predicate LegacyRefuses(high: Byte, xorHigh: Byte, bits: Byte, m: Byte)
  {
    bits > 0 && (m >= Pow2(bits) || (xorHigh > 0 && high < xorHigh + bits && xorHigh < high + bits))
  }

  /** The legacy constructor refuses a match value that does not fit and fields that overlap. */
  lemma LegacyRefusesWhen(high: Byte, xorHigh: Byte, bits: Byte, m: Byte)
    requires FieldsFit(high, xorHigh, bits)
    ensures LegacyRefuses(high, xorHigh, bits, m) <==>
            bits > 0 && (m >= Pow2(bits) || (xorHigh > 0 && exists p: nat :: InField(p, high, bits) && InField(p, xorHigh, bits)))
  {
    var p := if high < xorHigh then high else xorHigh;
    assert bits > 0 && high < xorHigh + bits && xorHigh < high + bits ==> InField(p, high, bits) && InField(p, xorHigh, bits);
  }

  /** Bit p is one of the given number of bits that end at bit high. */
  predicate InField(p: nat, high: nat, bits: nat)
  {
    p <= high < p + bits
  }

  function LegacyMask(low: nat, xorLow: nat, xored: bool, j: nat): nat
  {
    if xored then Or(Pow2(low + j), Pow2(xorLow + j)) else Pow2(low + j)
  }

  method Legacy(start: Addr, end: Addr, high: Byte, xorHigh: Byte, bits: Byte, m: Byte) returns (res: Result<AddrRange>)
    requires FieldsFit(high, xorHigh, bits)
    ensures res.Fatal? <==> LegacyRefuses(high, xorHigh, bits, m)
    ensures res.Ok? ==> res.value.start == start && res.value.end == end && res.value.intlvMatch == m
    ensures res.Ok? && bits > 0 ==> DistinctLsbs(res.value.masks) && Ordered(res.value.masks) && m < Pow2(bits)
    ensures res.Ok? ==> |res.value.masks| == bits
    ensures res.Ok? ==> forall j :: 0 <= j < bits ==>
                                      res.value.masks[j] == LegacyMask(high + 1 - bits, if xorHigh > 0 then xorHigh + 1 - bits else 0, xorHigh > 0, j)
  {
    if bits > 0 && m >= Pow2(bits) {
      return Fatal;
    }
    if bits > 0 && xorHigh > 0 {
      if xorHigh == high {
        return Fatal;
      } else if xorHigh > high {
        if xorHigh - high < bits {
          return Fatal;
        }
      } else {
        if high - xorHigh < bits {
          return Fatal;
        }
      }
    }
    var masks := BuildMasks(high, xorHigh, bits);
    if bits > 0 { LegacyDisjoint(masks, high + 1 - bits, if xorHigh > 0 then xorHigh + 1 - bits else 0, xorHigh > 0); }
    return Ok(AddrRange(start, end, masks, m));
  }

  /** The loop of the legacy constructor, from the highest mask down. */
  method BuildMasks(high: Byte, xorHigh: Byte, bits: Byte) returns (s: seq<Addr>)
    requires FieldsFit(high, xorHigh, bits)
    ensures |s| == bits
    ensures bits > 0 ==> LegacyMasks(s, high + 1 - bits, if xorHigh > 0 then xorHigh + 1 - bits else 0, xorHigh > 0)
  {
    var masks := new Addr[bits](_ => 0);
    ghost var low, xorLow := high + 1 - bits, if xorHigh > 0 then xorHigh + 1 - bits else 0;
    for i := 0 to bits
      invariant forall j :: bits - i <= j < bits ==> masks[j] == LegacyMask(low, xorLow, xorHigh > 0, j)
    {
      var bit1: Byte := high - i;
      OneBitFits(bit1);
      var mask: Addr := Pow2(bit1);
      if xorHigh > 0 {
        var bit2: Byte := xorHigh - i;
        OneBitFits(bit2);
        OrWord(mask, Pow2(bit2));
        mask := Or(mask, Pow2(bit2));
      }
      masks[bits - i - 1] := mask;
    }
    return masks[..];
  }

  lemma OneBitFits(p: nat)
    requires p < 64
    ensures Pow2(p) < TWO64
  {
    Pow2Values();
    Pow2Mono(p, 64);
  }

  /** The n bits of a from position low upwards. */
  function Field(a: nat, low: nat, n: nat): nat
  {
    Low(Shr(a, low), n)
  }

  /** The masks that the loop of the legacy constructor builds. */
  ghost predicate LegacyMasks(masks: seq<nat>, low: nat, xorLow: nat, xored: bool)
  {
    forall j :: 0 <= j < |masks| ==> masks[j] == LegacyMask(low, xorLow, xored, j)
  }

  lemma LegacyMaskBits(low: nat, xorLow: nat, xored: bool, j: nat, i: nat)
    ensures Bit(LegacyMask(low, xorLow, xored, j), i) == (i == low + j || (xored && i == xorLow + j))
  {
    BitPow2(low + j, i);
    BitPow2(xorLow + j, i);
    BitOr(Pow2(low + j), Pow2(xorLow + j), i);
  }

  lemma {:induction false} ParityOfBit(a: nat, p: nat)
    ensures Parity(a, Pow2(p)) == Bit(a, p)
    decreases p
  {
    ParityStep(a, Pow2(p));
    if p > 0 { ParityOfBit(a / 2, p - 1); }
  }

  lemma {:induction false} ParityOfTwoBits(a: nat, p: nat, q: nat)
    requires p != q
    ensures Parity(a, Or(Pow2(p), Pow2(q))) == (Bit(a, p) != Bit(a, q))
    decreases p
  {
    var m := Or(Pow2(p), Pow2(q));
    ParityStep(a, m);
    if p == 0 {
      OrZero(Pow2(q - 1));
      ParityOfBit(a / 2, q - 1);
    } else if q == 0 {
      OrZero(Pow2(p - 1));
      ParityOfBit(a / 2, p - 1);
    } else {
      ParityOfTwoBits(a / 2, p - 1, q - 1);
    }
  }

  /** The masks are disjoint, and their lowest bits distinct. */
  lemma LegacyDisjoint(masks: seq<Addr>, low: nat, xorLow: nat, xored: bool)
    requires LegacyMasks(masks, low, xorLow, xored)
    requires xored ==> low + |masks| <= xorLow || xorLow + |masks| <= low
    ensures DistinctLsbs(masks) && Ordered(masks)
    ensures forall i, j, t: nat :: 0 <= i < j < |masks| ==> !(Bit(masks[i], t) && Bit(masks[j], t))
  {
    forall j | 0 <= j < |masks| ensures masks[j] > 0 && Lsb(masks[j]) == (if xored && xorLow < low then xorLow else low) + j {
      LegacyLsb(low, xorLow, xored, j);
    }
    forall i, j, t: nat | 0 <= i < j < |masks| ensures !(Bit(masks[i], t) && Bit(masks[j], t)) {
      LegacyMaskBits(low, xorLow, xored, i, t);
      LegacyMaskBits(low, xorLow, xored, j, t);
    }
    forall i, j | 0 <= i < j < |masks| ensures !Bit(masks[i], Lsb(masks[j])) { LsbBits(masks[j], Lsb(masks[j])); }
  }

  lemma LegacyLsb(low: nat, xorLow: nat, xored: bool, j: nat)
    ensures LegacyMask(low, xorLow, xored, j) > 0
    ensures Lsb(LegacyMask(low, xorLow, xored, j)) == (if xored && xorLow < low then xorLow else low) + j
  {
    var l := (if xored && xorLow < low then xorLow else low) + j;
    forall i: nat
      ensures Bit(LegacyMask(low, xorLow, xored, j), i) == (i == low + j || (xored && i == xorLow + j))
    {
      LegacyMaskBits(low, xorLow, xored, j, i);
    }
    LsbUnique(LegacyMask(low, xorLow, xored, j), l);
  }

  /** The selector is the interleaving field XOR the field to hash it with. */
  lemma LegacySelector(masks: seq<Addr>, low: nat, xorLow: nat, xored: bool, a: nat)
    requires LegacyMasks(masks, low, xorLow, xored) && (xored ==> low != xorLow)
    ensures Sel(masks, a) == Xor(Field(a, low, |masks|), if xored then Field(a, xorLow, |masks|) else 0)
  {
    var x, y := Field(a, low, |masks|), if xored then Field(a, xorLow, |masks|) else 0;
    forall j: nat ensures Bit(Sel(masks, a), j) == Bit(Xor(x, y), j) {
      SelBits(masks, a, j);
      BitXor(x, y, j);
      FieldBits(a, low, |masks|, j);
      FieldBits(a, xorLow, |masks|, j);
      BitZero(j);
      if j < |masks| {
        ParityOfBit(a, low + j);
        if xored { ParityOfTwoBits(a, low + j, xorLow + j); }
      }
    }
    BitsEqual(Sel(masks, a), Xor(x, y));
  }

  lemma FieldBits(a: nat, low: nat, n: nat, j: nat)
    ensures Bit(Field(a, low, n), j) == (j < n && Bit(a, low + j))
  {
    BitLow(Shr(a, low), n, j);
    BitShr(a, low, j);
  }

  /** The legacy constructor as its documentation reads, with each field ending at its high bit. */
  method LegacyContains(start: Addr, end: Addr, high: Byte, xorHigh: Byte, bits: Byte, m: Byte, a: Addr) returns (found: bool)
    requires FieldsFit(high, xorHigh, bits) && 0 < bits <= 31 && !LegacyRefuses(high, xorHigh, bits, m)
    ensures found <==> start <= a < end &&
                       Xor(Field(a, high + 1 - bits, bits), if xorHigh > 0 then Field(a, xorHigh + 1 - bits, bits) else 0) == m
  {
    var res := Legacy(start, end, high, xorHigh, bits, m);
    var xored := xorHigh > 0;
    LegacySelector(res.value.masks, high + 1 - bits, if xored then xorHigh + 1 - bits else 0, xored, a);
    found := res.value.Contains(a);
  }
  /**
   * A range on bit 1 with match 0 has address 1.  In the comment the field starts at bit 0, where
   * address 1 has another selector, whether the field is read as one bit or as up to the high bit.
   */
  method LegacyExample() returns (found: bool)
    ensures found && Field(1, 0, 1) != 0 && Field(1, 0, 2) != 0
  {
    assert Pow2(1) == 2;
    assert Field(1, 1, 1) == 0;
    assert Xor(0, 0) == 0;
    found := LegacyContains(0, 4, 1, 0, 1, 0, 1);
  }
}
