/** What the interleaving operations of base/addr_range.hh promise together. */
module AddrRangeLaws {
  import opened Bits
  import opened Bitfield
  import opened Interleave
  import opened Sorting
  import opened AddrRanges

  // ----- a single mask -----

  lemma OddMask(m: nat)
    requires m % 2 == 1 && m < TWO64
    ensures DistinctLsbs([m]) && LsbSet([m]) == {0} && Top([m]) == 1
  {
    assert Lsb([m][0]) in LsbSet([m]);
    assert Top([m]) - 1 in LsbSet([m]);
  }

  lemma SelOdd(m: nat, a: nat)
    ensures Sel([m], a) == if Parity(a, m) then 1 else 0
  {
    assert Sel([m][1..], a) == 0;
  }

  // ----- getOffset numbers the addresses of a range -----

  lemma CompressedBounds(r: AddrRange, a: Addr)
    requires r.WellFormed() && r.AlignedBounds() && r.start <= a < r.end
    ensures Compressed(r.masks, r.start) <= Compressed(r.masks, a) < Compressed(r.masks, r.end)
  {
    var n, drop := Top(r.masks), LsbSet(r.masks);
    CompressOrder(a, r.start, drop, 0, n);
    CompressOrder(a, r.end, drop, 0, n);
  }

  lemma AlignedScale(masks: seq<nat>, x: nat)
    requires DistinctLsbs(masks) && Aligned(x, Top(masks))
    ensures x == Shl(Compressed(masks, x), |masks|)
  {
    CompressAligned(x, LsbSet(masks), 0, Top(masks));
    CountAll(masks, Top(masks));
  }

  lemma SizeIsDifference(r: AddrRange)
    requires r.WellFormed() && r.AlignedBounds()
    ensures r.Size() == Compressed(r.masks, r.end) - Compressed(r.masks, r.start)
  {
    AlignedScale(r.masks, r.start);
    AlignedScale(r.masks, r.end);
    CompressOrder(r.end, r.start, LsbSet(r.masks), 0, Top(r.masks));
    ScaledDifference(r.start, r.end, Compressed(r.masks, r.start), Compressed(r.masks, r.end), |r.masks|);
  }

  lemma ScaledDifference(x: Addr, y: Addr, c: nat, d: nat, k: nat)
    requires x == Shl(c, k) && y == Shl(d, k) && c <= d
    ensures Shr(Sub64(y, x), k) == d - c
  {
    ShrDifference(c, d, k);
  }

  /** The offset of an address of the range is below the size of the range. */
  lemma OffsetBelowSize(r: AddrRange, a: Addr)
    requires r.WellFormed() && r.AlignedBounds() && r.Has(a)
    ensures r.Offset(a) < r.Size()
    ensures r.Offset(a) == Compressed(r.masks, a) - Compressed(r.masks, r.start)
  {
    CompressedBounds(r, a);
    SizeIsDifference(r);
  }

  lemma OffsetIncreasing(r: AddrRange, a: Addr, b: Addr)
    requires r.WellFormed() && r.AlignedBounds() && r.Has(a) && r.Has(b) && a < b
    ensures r.Offset(a) < r.Offset(b)
  {
    OffsetBelowSize(r, a);
    OffsetBelowSize(r, b);
    SelIsStripe(r.masks, r.intlvMatch, a);
    SelIsStripe(r.masks, r.intlvMatch, b);
    CompressMono(r.masks, r.intlvMatch, a, b, 0);
  }

  /** The address of the range with the given offset. */
  ghost function AddressAt(r: AddrRange, o: nat): (a: nat)
    requires r.WellFormed()
  {
    Expand(r.masks, r.intlvMatch, Compressed(r.masks, r.start) + o, 0)
  }

  lemma AddressAtStripe(r: AddrRange, o: nat)
    requires r.WellFormed()
    ensures Sel(r.masks, AddressAt(r, o)) == r.intlvMatch
    ensures Compressed(r.masks, AddressAt(r, o)) == Compressed(r.masks, r.start) + o
  {
    var f := Compressed(r.masks, r.start) + o;
    ExpandStripe(r.masks, r.intlvMatch, f, 0);
    CompressExpand(r.masks, r.intlvMatch, f, 0);
    SelIsStripe(r.masks, r.intlvMatch, AddressAt(r, o));
  }

  /** Every number below the size is the offset of an address of the range. */
  lemma OffsetOnto(r: AddrRange, o: nat)
    requires r.WellFormed() && r.AlignedBounds() && o < r.Size()
    ensures AddressAt(r, o) < TWO64 && r.Has(AddressAt(r, o)) && r.Offset(AddressAt(r, o)) == o
  {
    var n, drop := Top(r.masks), LsbSet(r.masks);
    var a := AddressAt(r, o);
    AddressAtStripe(r, o);
    SizeIsDifference(r);
    CompressOrder(a, r.start, drop, 0, n);
    CompressOrder(a, r.end, drop, 0, n);
    OffsetBelowSize(r, a);
  }

  /** The addresses of the range. */
  ghost function AddressSet(r: AddrRange): set<nat>
  {
    set a: nat | r.start <= a < r.end && r.Has(a)
  }

  /** size() is the number of addresses of the range. */
  lemma SizeIsCount(r: AddrRange)
    requires r.WellFormed() && r.AlignedBounds()
    ensures |AddressSet(r)| == r.Size()
  {
    var s := seq(r.Size(), o requires 0 <= o => AddressAt(r, o));
    forall i, j | 0 <= i < j < |s| ensures s[i] < s[j] { AddressAtIncreasing(r, i, j); }
    IncreasingSize(s);
    forall a | a in AddressSet(r) ensures a in s {
      OffsetBelowSize(r, a);
      OffsetDecides(r, a, r.Offset(a));
      assert s[r.Offset(a)] == a;
    }
    forall a | a in s ensures a in AddressSet(r) {
      var o :| 0 <= o < |s| && s[o] == a;
      OffsetOnto(r, o);
    }
    assert Elements(s) == AddressSet(r);
  }

  lemma OffsetDecides(r: AddrRange, a: Addr, o: nat)
    requires r.WellFormed() && r.AlignedBounds() && r.Has(a) && o == r.Offset(a) < r.Size()
    ensures a == AddressAt(r, o)
  {
    OffsetOnto(r, o);
    var b := AddressAt(r, o);
    if a < b { OffsetIncreasing(r, a, b); }
    if b < a { OffsetIncreasing(r, b, a); }
  }

  lemma AddressAtIncreasing(r: AddrRange, i: nat, j: nat)
    requires r.WellFormed() && r.AlignedBounds() && i < j < r.Size()
    ensures AddressAt(r, i) < AddressAt(r, j)
  {
    OffsetOnto(r, i);
    OffsetOnto(r, j);
    if AddressAt(r, j) < AddressAt(r, i) { OffsetIncreasing(r, AddressAt(r, j), AddressAt(r, i)); }
  }

  // ----- addIntlvBits and removeIntlvBits -----

  lemma {:induction false} SpreadCompress(b: nat, s: seq<nat>, i: nat)
    requires StrictlyIncreasing(s) && i <= |s|
    ensures Compress(Spread(b, s, i), Elements(s[..i]), 0) == b
    decreases i
  {
    if i == 0 {
      assert Elements(s[..0]) == {};
      CompressAbove(b, {}, 0);
    } else {
      var x, p := Spread(b, s, i - 1), s[i - 1];
      SpreadCompress(b, s, i - 1);
      CompressInserted(x, Elements(s[..i - 1]), p, p > 0 && Bit(x, p - 1), 0);
      assert Elements(s[..i]) == Elements(s[..i - 1]) + {p};
    }
  }

  lemma {:induction false} FillCompress(masks: seq<nat>, sel: nat, a: nat, i: nat)
    requires DistinctLsbs(masks) && i <= |masks|
    ensures Compressed(masks, Fill(masks, sel, a, i)) == Compressed(masks, a)
    decreases i
  {
    if i > 0 {
      var x, m := Fill(masks, sel, a, i - 1), masks[i - 1];
      FillCompress(masks, sel, a, i - 1);
      CompressWritten(x, LsbSet(masks), Lsb(m), Bit(sel, i - 1) != Parity(x, SetBit(m, Lsb(m), false)), 0);
    }
  }

  /** Removing what was added gives back the flat address, whatever the masks' order. */
  lemma RemoveUndoesAdd(masks: seq<Addr>, sel: nat, b: nat)
    requires DistinctLsbs(masks)
    ensures Compressed(masks, AddBits(masks, sel, b)) == b
  {
    var s := Sorted(Lsbs(masks));
    SortedLsbsFacts(masks);
    SpreadCompress(b, s, |masks|);
    assert s[..|masks|] == s;
    FillCompress(masks, sel, Spread(b, s, |masks|), |masks|);
  }

  /** No mask contains the lowest bit of a later one, so writing that bit last does no harm. */
  ghost predicate Ordered(masks: seq<nat>)
    requires NonZero(masks)
  {
    forall i, j :: 0 <= i < j < |masks| ==> !Bit(masks[i], Lsb(masks[j]))
  }

  lemma FillWrites(masks: seq<nat>, sel: nat, a: nat, i: nat)
    requires NonZero(masks) && i < |masks|
    ensures Parity(Fill(masks, sel, a, i + 1), masks[i]) == Bit(sel, i)
  {
    var x, m := Fill(masks, sel, a, i), masks[i];
    LsbBits(m, Lsb(m));
    ParitySetInside(x, m, Lsb(m), Bit(sel, i) != Parity(x, SetBit(m, Lsb(m), false)));
  }

  /** A mask that none of the masks t..i-1 interferes with keeps its parity from t to i. */
  lemma {:induction false} FillKeeps(masks: seq<nat>, sel: nat, a: nat, m: nat, t: nat, i: nat)
    requires NonZero(masks) && t <= i <= |masks|
    requires forall j :: t <= j < i ==> !Bit(m, Lsb(masks[j]))
    ensures Parity(Fill(masks, sel, a, i), m) == Parity(Fill(masks, sel, a, t), m)
    decreases i
  {
    if t < i {
      FillKeeps(masks, sel, a, m, t, i - 1);
      var x, w := Fill(masks, sel, a, i - 1), masks[i - 1];
      ParitySetOutside(x, m, Lsb(w), Bit(sel, i - 1) != Parity(x, SetBit(w, Lsb(w), false)));
    }
  }

  lemma AddSelects(masks: seq<Addr>, sel: nat, b: nat)
    requires DistinctLsbs(masks) && Ordered(masks) && sel < Pow2(|masks|)
    ensures Sel(masks, AddBits(masks, sel, b)) == sel
  {
    var a, x := AddBits(masks, sel, b), Spread(b, Sorted(Lsbs(masks)), |masks|);
    forall j | 0 <= j < |masks| ensures Parity(a, Shr(masks[j], 0)) == Bit(sel, j) { FillSelects(masks, sel, x, j); }
    SelIsStripe(masks, sel, a);
  }

  lemma FillSelects(masks: seq<nat>, sel: nat, x: nat, j: nat)
    requires NonZero(masks) && Ordered(masks) && j < |masks|
    ensures Parity(Fill(masks, sel, x, |masks|), masks[j]) == Bit(sel, j)
  {
    FillWrites(masks, sel, x, j);
    FillKeeps(masks, sel, x, masks[j], j + 1, |masks|);
  }

  /** Adding what was removed gives back the address, if it has the right selector. */
  lemma AddUndoesRemove(masks: seq<Addr>, sel: nat, a: nat)
    requires DistinctLsbs(masks) && Ordered(masks) && Sel(masks, a) == sel
    ensures AddBits(masks, sel, Compressed(masks, a)) == a
  {
    var b := AddBits(masks, sel, Compressed(masks, a));
    SelBits(masks, a, 0);
    AddSelects(masks, sel, Compressed(masks, a));
    RemoveUndoesAdd(masks, sel, Compressed(masks, a));
    SameAddress(masks, a, b);
  }

  /** An address is determined by its selector and its other bits. */
  lemma SameAddress(masks: seq<nat>, a: nat, b: nat)
    requires DistinctLsbs(masks) && Sel(masks, a) == Sel(masks, b) && Compressed(masks, a) == Compressed(masks, b)
    ensures a == b
  {
    var sel := Sel(masks, a);
    SelBits(masks, a, 0);
    SelIsStripe(masks, sel, a);
    SelIsStripe(masks, sel, b);
    if a != b { CompressMono(masks, sel, if a < b then a else b, if a < b then b else a, 0); }
  }

  /** Whatever the match value, a byte, and the flat address: addIntlvBits reaches the stripe. */
  ghost predicate AddAlwaysSelects(masks: seq<Addr>)
    requires DistinctLsbs(masks) && |masks| <= 8
  {
    forall sel: Byte, b: nat :: sel < Pow2(|masks|) && b < Pow2(64 - |masks|) ==> Sel(masks, AddBits(masks, sel, b)) == sel
  }

  /** addIntlvBits hits the right stripe for every match and flat address exactly when the masks are ordered. */
  lemma AddNeedsOrder(masks: seq<Addr>)
    requires DistinctLsbs(masks) && |masks| <= 8
    ensures AddAlwaysSelects(masks) <==> Ordered(masks)
  {
    if Ordered(masks) {
      forall sel: Byte, b: nat | sel < Pow2(|masks|) && b < Pow2(64 - |masks|)
        ensures Sel(masks, AddBits(masks, sel, b)) == sel
      {
        AddSelects(masks, sel, b);
      }
    } else {
      var sel := AddMissesStripe(masks);
    }
  }

  /** Masks that are not ordered send the flat address 0 to the wrong stripe for some match value. */
  lemma AddMissesStripe(masks: seq<Addr>) returns (sel: Byte)
    requires DistinctLsbs(masks) && |masks| <= 8 && !Ordered(masks)
    ensures sel < Pow2(|masks|) && Sel(masks, AddBits(masks, sel, 0)) != sel
  {
    var i, j := LastInterference(masks);
    AddMisses(masks, i, j);
    Pow2Values();
    Pow2Mono(j + 1, |masks|);
    Pow2Mono(j + 1, 8);
    sel := Pow2(j);
  }

  /** Two masks, the first of which contains the lowest bit of the second. */
  lemma AddMissesExample()
    ensures DistinctLsbs([3, 2]) && !Ordered([3, 2]) && Sel([3, 2], AddBits([3, 2], 2, 0)) != 2
  {
    assert Lsb(3) == 0 && Lsb(2) == 1 && Bit(3, 1) && Pow2(1) == 2;
    AddMisses([3, 2], 0, 1);
  }

  /** Whatever the address: adding what was removed gives it back. */
  ghost predicate AddAlwaysRestores(masks: seq<Addr>)
    requires DistinctLsbs(masks)
  {
    forall a: Addr :: AddBits(masks, Sel(masks, a), Compressed(masks, a)) == a
  }

  /** The round trip from addresses is exact for every stripe exactly when the masks are ordered. */
  lemma RestoreNeedsOrder(masks: seq<Addr>)
    requires DistinctLsbs(masks) && |masks| <= 8
    ensures AddAlwaysRestores(masks) <==> Ordered(masks)
  {
    if Ordered(masks) {
      forall a: Addr ensures AddBits(masks, Sel(masks, a), Compressed(masks, a)) == a {
        AddUndoesRemove(masks, Sel(masks, a), a);
      }
    } else {
      var sel := AddMissesStripe(masks);
      var a := FirstOfStripe(masks, sel);
      assert AddBits(masks, Sel(masks, a), Compressed(masks, a)) != a;
    }
  }

  /** The address of a stripe whose other bits are zero. */
  lemma FirstOfStripe(masks: seq<Addr>, sel: nat) returns (a: Addr)
    requires DistinctLsbs(masks) && sel < Pow2(|masks|)
    ensures Sel(masks, a) == sel && Compressed(masks, a) == 0
  {
    var x := Expand(masks, sel, 0, 0);
    ExpandStripe(masks, sel, 0, 0);
    CompressExpand(masks, sel, 0, 0);
    SelIsStripe(masks, sel, x);
    if Top(masks) > 0 { LsbBelow64(masks, Top(masks) - 1); }
    CompressedToZero(masks, x, 64);
    Pow2Values();
    a := x;
  }

  /** A number that is zero but for dropped bits below n is below Pow2(n). */
  lemma CompressedToZero(masks: seq<Addr>, x: nat, n: nat)
    requires DistinctLsbs(masks) && Compressed(masks, x) == 0 && Top(masks) <= n
    ensures x < Pow2(n)
  {
    AlignedPow2(n, Top(masks));
    CompressOrder(x, Pow2(n), LsbSet(masks), 0, Top(masks));
    CompressOrder(0, Pow2(n), LsbSet(masks), 0, Top(masks));
  }

  lemma {:induction false} AlignedPow2(n: nat, k: nat)
    requires k <= n
    ensures Aligned(Pow2(n), k)
  {
    if k > 0 { AlignedPow2(n - 1, k - 1); }
  }

  /** A mask i that contains the lowest bit of a later mask, and the last such mask j. */
  lemma LastInterference(masks: seq<nat>) returns (i: nat, j: nat)
    requires NonZero(masks) && !Ordered(masks)
    ensures i < j < |masks| && Bit(masks[i], Lsb(masks[j]))
    ensures forall t :: j < t < |masks| ==> !Bit(masks[i], Lsb(masks[t]))
  {
    i, j :| 0 <= i < j < |masks| && Bit(masks[i], Lsb(masks[j]));
    var t := j;
    while t < |masks|
      invariant i < j < |masks| && j <= t <= |masks| && Bit(masks[i], Lsb(masks[j]))
      invariant forall u :: j < u < t ==> !Bit(masks[i], Lsb(masks[u]))
    {
      if Bit(masks[i], Lsb(masks[t])) { j := t; }
      t := t + 1;
    }
  }

  lemma {:induction false} FillZero(masks: seq<nat>, sel: nat, i: nat)
    requires NonZero(masks) && i <= |masks| && (forall j :: 0 <= j < i ==> !Bit(sel, j))
    ensures Fill(masks, sel, 0, i) == 0
    decreases i
  {
    if i > 0 {
      FillZero(masks, sel, i - 1);
      SetBitZero(Lsb(masks[i - 1]));
    }
  }

  lemma {:induction false} SetBitZero(p: nat)
    ensures SetBit(0, p, false) == 0
  {
    if p > 0 { SetBitZero(p - 1); }
  }

  lemma {:induction false} SpreadZero(s: seq<nat>, i: nat)
    requires i <= |s|
    ensures Spread(0, s, i) == 0
    decreases i
  {
    if i > 0 {
      SpreadZero(s, i - 1);
      if s[i - 1] > 0 { BitZero(s[i - 1] - 1); }
      InsertZero(s[i - 1]);
    }
  }

  lemma {:induction false} InsertZero(p: nat)
    ensures InsertBit(0, p, false) == 0
  {
    if p > 0 { InsertZero(p - 1); }
  }

  /** With only bit j to match, the flat address 0 lands where mask i has parity one. */
  lemma AddMisses(masks: seq<Addr>, i: nat, j: nat)
    requires DistinctLsbs(masks) && i < j < |masks| && Bit(masks[i], Lsb(masks[j]))
    requires forall t :: j < t < |masks| ==> !Bit(masks[i], Lsb(masks[t]))
    ensures Sel(masks, AddBits(masks, Pow2(j), 0)) != Pow2(j)
  {
    FillMisses(masks, i, j);
    SpreadZero(Sorted(Lsbs(masks)), |masks|);
    SelDiffers(masks, AddBits(masks, Pow2(j), 0), i, j);
  }

  lemma FillMisses(masks: seq<nat>, i: nat, j: nat)
    requires NonZero(masks) && i < j < |masks| && Bit(masks[i], Lsb(masks[j]))
    requires forall t :: j < t < |masks| ==> !Bit(masks[i], Lsb(masks[t]))
    ensures Parity(Fill(masks, Pow2(j), 0, |masks|), masks[i])
  {
    FillOne(masks, j);
    FillKeeps(masks, Pow2(j), 0, masks[i], j + 1, |masks|);
    OneBitParity(masks[i], Lsb(masks[j]));
  }

  lemma OneBitParity(m: nat, l: nat)
    requires Bit(m, l)
    ensures Parity(SetBit(0, l, true), m)
  {
    ParitySetInside(0, m, l, true);
  }

  lemma SelDiffers(masks: seq<nat>, a: nat, i: nat, j: nat)
    requires i < |masks| && i != j && Parity(a, masks[i])
    ensures Sel(masks, a) != Pow2(j)
  {
    SelBits(masks, a, i);
    BitPow2(j, i);
  }

  lemma FillOne(masks: seq<nat>, j: nat)
    requires NonZero(masks) && j < |masks|
    ensures Fill(masks, Pow2(j), 0, j + 1) == SetBit(0, Lsb(masks[j]), true)
  {
    forall t: nat ensures Bit(Pow2(j), t) == (t == j) { BitPow2(j, t); }
    FillZero(masks, Pow2(j), j);
  }

  /** The two loops one after the other: exact on the flat addresses that fit, truncating the others. */
  method AddThenRemove(r: AddrRange, b: Addr) returns (c: Addr)
    requires DistinctLsbs(r.masks) && |r.masks| <= 31 && (forall j :: 0 <= j < |r.masks| ==> Lsb(r.masks[j]) < 31)
    ensures c == Low(b, 64 - |r.masks|)
    ensures c == b <==> b < Pow2(64 - |r.masks|)
  {
    var a := r.AddIntlvBits(b);
    c := r.RemoveIntlvBits(a);
    RoundTripLow(r.masks, r.intlvMatch, b, 64 - |r.masks|, a);
  }

  lemma RoundTripLow(masks: seq<Addr>, sel: nat, b: nat, n: nat, a: nat)
    requires DistinctLsbs(masks) && a == AddBits(masks, sel, Low(b, n))
    ensures Compress(a, LsbSet(masks), 0) == Low(b, n)
    ensures Low(b, n) == b <==> b < Pow2(n)
  {
    RemoveUndoesAdd(masks, sel, Low(b, n));
    LowFixed(b, n);
  }

  lemma LowFixed(b: nat, n: nat)
    ensures Low(b, n) == b <==> b < Pow2(n)
  {
    LowBound(b, n);
  }

  method RemoveThenAdd(r: AddrRange, a: Addr) returns (c: Addr)
    requires r.WellFormed() && Ordered(r.masks) && (forall j :: 0 <= j < |r.masks| ==> Lsb(r.masks[j]) < 31)
    ensures Sel(r.masks, c) == r.intlvMatch
    ensures c == a <==> Sel(r.masks, a) == r.intlvMatch
  {
    var b := r.RemoveIntlvBits(a);
    c := r.AddIntlvBits(b);
    CompressedFits(r.masks, a);
    LowBound(b, 64 - |r.masks|);
    AddSelects(r.masks, r.intlvMatch, b);
    if Sel(r.masks, a) == r.intlvMatch { AddUndoesRemove(r.masks, r.intlvMatch, a); }
  }

  lemma CompressedFits(masks: seq<nat>, a: Addr)
    requires DistinctLsbs(masks) && |masks| <= 64
    ensures Compressed(masks, a) < Pow2(64 - |masks|)
  {
    Pow2Values();
    forall s | s in LsbSet(masks) ensures s < 64 { LsbBelow64(masks, s); }
    CompressedBound(masks, a, 64);
  }

  lemma CompressedBound(masks: seq<nat>, a: nat, n: nat)
    requires DistinctLsbs(masks) && (forall s :: s in LsbSet(masks) ==> s < n) && a < Pow2(n)
    ensures |masks| <= n && Compressed(masks, a) < Pow2(n - |masks|)
  {
    CountAll(masks, n);
    CompressBound(a, LsbSet(masks), 0, n);
  }
}
