/**
 * Interleaving by XOR masks, independently of how base/addr_range.hh computes
 * it.  A list of masks gives every address a selector, one parity per mask.
 * The addresses with one selector form a stripe; dropping the lowest bit of
 * every mask numbers the addresses of a stripe consecutively.
 */
module Interleave {
  import opened Bits

  /** Bit j of the selector of a is the parity of the bits of a under masks[j]. */
  function Sel(masks: seq<nat>, a: nat): nat
  {
    if |masks| == 0 then 0
    else (if Parity(a, masks[0]) then 1 else 0) + 2 * Sel(masks[1..], a)
  }

  predicate NonZero(masks: seq<nat>)
  {
    forall j :: 0 <= j < |masks| ==> masks[j] > 0
  }

  ghost predicate DistinctLsbs(masks: seq<nat>)
  {
    && NonZero(masks)
    && (forall j :: 0 <= j < |masks| ==> masks[j] < TWO64)
    && (forall i, j :: 0 <= i < j < |masks| ==> Lsb(masks[i]) != Lsb(masks[j]))
  }

  /** The positions of the lowest bits of the masks. */
  ghost function LsbSet(masks: seq<nat>): set<nat>
    requires DistinctLsbs(masks)
  {
    set j | 0 <= j < |masks| :: Lsb(masks[j])
  }

  /** a, whose lowest bit stands at position p, without the bits at positions in drop. */
  ghost function Compress(a: nat, drop: set<nat>, p: nat): (r: nat)
    ensures r <= a
  {
    if a == 0 then 0
    else if p in drop then Compress(a / 2, drop, p + 1)
    else a % 2 + 2 * Compress(a / 2, drop, p + 1)
  }

  /** The number of positions of drop in [p, q). */
  ghost function CountIn(drop: set<nat>, p: nat, q: nat): (n: nat)
    ensures p <= q ==> n <= q - p
    decreases q - p
  {
    if p >= q then 0 else (if p in drop then 1 else 0) + CountIn(drop, p + 1, q)
  }

  /**
   * a, whose lowest bit stands at position p, has the selector bits sel for the
   * masks that lie entirely at or above p.
   */
  ghost predicate StripeFrom(masks: seq<nat>, sel: nat, a: nat, p: nat)
    requires DistinctLsbs(masks)
  {
    forall j :: 0 <= j < |masks| && p <= Lsb(masks[j]) ==> Parity(a, Shr(masks[j], p)) == Bit(sel, j)
  }

  /** One above the highest position that is dropped; 0 without masks. */
  ghost function Top(masks: seq<nat>): (n: nat)
    requires DistinctLsbs(masks)
    ensures forall s :: s in LsbSet(masks) ==> s < n
    ensures n > 0 ==> n - 1 in LsbSet(masks)
  {
    if |masks| == 0 then 0
    else
      var k := |masks| - 1;
      var l, rest := Lsb(masks[k]), Top(masks[..k]);
      assert LsbSet(masks) == LsbSet(masks[..k]) + {l};
      if l < rest then rest else l + 1
  }

  /** The mask whose lowest bit is at p. */
  ghost function MaskAt(masks: seq<nat>, p: nat): (j: nat)
    requires DistinctLsbs(masks) && p in LsbSet(masks)
    ensures j < |masks| && Lsb(masks[j]) == p
  {
    var j :| 0 <= j < |masks| && Lsb(masks[j]) == p;
    j
  }

  /** The address (from position p) of the stripe sel whose other bits are those of f. */
  ghost function Expand(masks: seq<nat>, sel: nat, f: nat, p: nat): nat
    requires DistinctLsbs(masks)
    decreases Top(masks) - p
  {
    if p >= Top(masks) then f
    else if p in LsbSet(masks) then
      var j := MaskAt(masks, p);
      var high := Expand(masks, sel, f, p + 1);
      2 * high + (if Bit(sel, j) != Parity(high, Shr(masks[j], p + 1)) then 1 else 0)
    else
      f % 2 + 2 * Expand(masks, sel, f / 2, p + 1)
  }

  // ----- the selector -----

  lemma {:induction false} SelBits(masks: seq<nat>, a: nat, j: nat)
    ensures Bit(Sel(masks, a), j) == (j < |masks| && Parity(a, masks[j]))
    ensures Sel(masks, a) < Pow2(|masks|)
    decreases |masks|
  {
    if |masks| == 0 {
      BitZero(j);
    } else {
      SelBits(masks[1..], a, if j == 0 then 0 else j - 1);
      BitAbove(if Parity(a, masks[0]) then 1 else 0, Sel(masks[1..], a), j);
    }
  }

  /** An address is in the stripe sel exactly when its selector is sel. */
  lemma SelIsStripe(masks: seq<nat>, sel: nat, a: nat)
    requires DistinctLsbs(masks) && sel < Pow2(|masks|)
    ensures Sel(masks, a) == sel <==> StripeFrom(masks, sel, a, 0)
  {
    SelBits(masks, a, 0);
    forall j | 0 <= j < |masks| ensures Bit(Sel(masks, a), j) == Parity(a, Shr(masks[j], 0)) {
      SelBits(masks, a, j);
    }
    if StripeFrom(masks, sel, a, 0) {
      forall j: nat ensures Bit(Sel(masks, a), j) == Bit(sel, j) {
        SelBits(masks, a, j);
        if j >= |masks| { BitBound(sel, |masks|, j); }
      }
      BitsEqual(Sel(masks, a), sel);
    }
  }

  // ----- one position at a time -----

  lemma CompressStep(a: nat, drop: set<nat>, p: nat)
    ensures Compress(a, drop, p) ==
            if p in drop then Compress(a / 2, drop, p + 1) else a % 2 + 2 * Compress(a / 2, drop, p + 1)
  {
  }

  lemma {:induction false} CompressAbove(a: nat, drop: set<nat>, p: nat)
    requires forall s :: s in drop ==> s < p
    ensures Compress(a, drop, p) == a
  {
    if a > 0 { CompressAbove(a / 2, drop, p + 1); }
  }

  /** What the mask j says about a, one position up. */
  lemma MaskStep(m: nat, a: nat, p: nat)
    requires m > 0 && p <= Lsb(m)
    ensures p < Lsb(m) ==> Parity(a, Shr(m, p)) == Parity(a / 2, Shr(m, p + 1))
    ensures p == Lsb(m) ==> Parity(a, Shr(m, p)) == ((a % 2 == 1) != Parity(a / 2, Shr(m, p + 1)))
  {
    ParityStep(a, Shr(m, p));
    ShrStep(m, p);
    LsbBits(m, p);
    BitIsShrOdd(m, p);
  }

  lemma StripeStep(masks: seq<nat>, sel: nat, a: nat, p: nat)
    requires DistinctLsbs(masks) && StripeFrom(masks, sel, a, p)
    ensures StripeFrom(masks, sel, a / 2, p + 1)
  {
    forall j | 0 <= j < |masks| && p + 1 <= Lsb(masks[j])
      ensures Parity(a / 2, Shr(masks[j], p + 1)) == Bit(sel, j)
    {
      MaskStep(masks[j], a, p);
    }
  }

  /** At a dropped position the bit is determined by the bits above it. */
  lemma DroppedBit(masks: seq<nat>, sel: nat, a: nat, b: nat, p: nat)
    requires DistinctLsbs(masks) && p in LsbSet(masks)
    requires StripeFrom(masks, sel, a, p) && StripeFrom(masks, sel, b, p)
    requires a / 2 == b / 2
    ensures a == b
  {
    var j :| 0 <= j < |masks| && Lsb(masks[j]) == p;
    MaskStep(masks[j], a, p);
    MaskStep(masks[j], b, p);
  }

  // ----- a stripe is numbered in increasing order -----

  lemma {:induction false} CompressMono(masks: seq<nat>, sel: nat, a: nat, b: nat, p: nat)
    requires DistinctLsbs(masks)
    requires StripeFrom(masks, sel, a, p) && StripeFrom(masks, sel, b, p)
    requires a < b
    ensures Compress(a, LsbSet(masks), p) < Compress(b, LsbSet(masks), p)
    decreases b
  {
    var drop := LsbSet(masks);
    CompressStep(a, drop, p);
    CompressStep(b, drop, p);
    StripeStep(masks, sel, a, p);
    StripeStep(masks, sel, b, p);
    if a / 2 < b / 2 {
      CompressMono(masks, sel, a / 2, b / 2, p + 1);
    } else if p in drop {
      DroppedBit(masks, sel, a, b, p);
    }
  }

  // ----- every number is that of an address of the stripe -----

  /** The converse of StripeStep: a right bit below a stripe address makes a stripe address. */
  lemma StripeBuild(masks: seq<nat>, sel: nat, a: nat, p: nat)
    requires DistinctLsbs(masks) && StripeFrom(masks, sel, a / 2, p + 1)
    requires p in LsbSet(masks) ==>
               var j := MaskAt(masks, p);
               (a % 2 == 1) == (Bit(sel, j) != Parity(a / 2, Shr(masks[j], p + 1)))
    ensures StripeFrom(masks, sel, a, p)
  {
    forall j | 0 <= j < |masks| && p <= Lsb(masks[j])
      ensures Parity(a, Shr(masks[j], p)) == Bit(sel, j)
    {
      assert Lsb(masks[j]) in LsbSet(masks);
      MaskStep(masks[j], a, p);
    }
  }

  lemma ExpandStep(masks: seq<nat>, sel: nat, f: nat, p: nat)
    requires DistinctLsbs(masks) && p < Top(masks)
    ensures var drops := p in LsbSet(masks);
            var a, high := Expand(masks, sel, f, p), Expand(masks, sel, if drops then f else f / 2, p + 1);
            && a / 2 == high
            && (!drops ==> a % 2 == f % 2)
            && (drops ==> var j := MaskAt(masks, p);
                          (a % 2 == 1) == (Bit(sel, j) != Parity(high, Shr(masks[j], p + 1))))
  {
  }

  lemma {:induction false} ExpandStripe(masks: seq<nat>, sel: nat, f: nat, p: nat)
    requires DistinctLsbs(masks)
    ensures StripeFrom(masks, sel, Expand(masks, sel, f, p), p)
    decreases Top(masks) - p
  {
    if p >= Top(masks) {
      forall j | 0 <= j < |masks| ensures Lsb(masks[j]) < p { assert Lsb(masks[j]) in LsbSet(masks); }
    } else {
      ExpandStripe(masks, sel, if p in LsbSet(masks) then f else f / 2, p + 1);
      ExpandStep(masks, sel, f, p);
      StripeBuild(masks, sel, Expand(masks, sel, f, p), p);
    }
  }

  lemma {:induction false} CompressExpand(masks: seq<nat>, sel: nat, f: nat, p: nat)
    requires DistinctLsbs(masks)
    ensures Compress(Expand(masks, sel, f, p), LsbSet(masks), p) == f
    decreases Top(masks) - p
  {
    var drop := LsbSet(masks);
    if p >= Top(masks) {
      CompressAbove(f, drop, p);
    } else {
      var g := if p in drop then f else f / 2;
      CompressExpand(masks, sel, g, p + 1);
      ExpandStep(masks, sel, f, p);
      CompressStep(Expand(masks, sel, f, p), drop, p);
    }
  }

  lemma LsbBelow64(masks: seq<nat>, s: nat)
    requires DistinctLsbs(masks) && s in LsbSet(masks)
    ensures s < 64
  {
    var j :| 0 <= j < |masks| && Lsb(masks[j]) == s;
    Pow2Values();
    LsbBound(masks[j], 64);
  }

  // ----- aligned bounds -----

  /** Dropping bits keeps the order with respect to a multiple of Pow2(n - p). */
  lemma {:induction false} CompressOrder(a: nat, x: nat, drop: set<nat>, p: nat, n: nat)
    requires p <= n && (forall s :: s in drop ==> s < n)
    requires Aligned(x, n - p)
    ensures a < x ==> Compress(a, drop, p) < Compress(x, drop, p)
    ensures x <= a ==> Compress(x, drop, p) <= Compress(a, drop, p)
    decreases n - p
  {
    CompressStep(a, drop, p);
    CompressStep(x, drop, p);
    if p == n {
      CompressAbove(a, drop, p);
      CompressAbove(x, drop, p);
    } else {
      CompressOrder(a / 2, x / 2, drop, p + 1, n);
    }
  }

  /** On a multiple of Pow2(n - p), each dropped bit halves. */
  lemma {:induction false} CompressAligned(x: nat, drop: set<nat>, p: nat, n: nat)
    requires p <= n && (forall s :: s in drop ==> s < n)
    requires Aligned(x, n - p)
    ensures Shl(Compress(x, drop, p), CountIn(drop, p, n)) == x
    decreases n - p
  {
    CompressStep(x, drop, p);
    if p == n {
      CompressAbove(x, drop, p);
    } else {
      CompressAligned(x / 2, drop, p + 1, n);
      ShlDouble(Compress(x / 2, drop, p + 1), CountIn(drop, p + 1, n));
    }
  }

  lemma {:induction false} ShlDouble(c: nat, n: nat)
    ensures Shl(2 * c, n) == 2 * Shl(c, n)
  {
    if n > 0 { ShlDouble(c, n - 1); }
  }

  // ----- dropping, inserting and writing single bits -----

  /** Dropping one more position, above the others, removes one bit of the result. */
  lemma {:induction false} CompressOneMore(a: nat, drop: set<nat>, l: nat, p: nat)
    requires p <= l && (forall s :: s in drop ==> s < l)
    ensures Compress(a, drop + {l}, p) == RemoveBit(Compress(a, drop, p), l - p - CountIn(drop, p, l))
    decreases l - p
  {
    if p == l {
      CompressStep(a, drop + {l}, p);
      CompressAbove(a, drop, p);
      CompressAbove(a / 2, drop + {l}, p + 1);
    } else {
      CompressOneMore(a / 2, drop, l, p + 1);
      var c, k := Compress(a / 2, drop, p + 1), l - p - 1 - CountIn(drop, p + 1, l);
      OneMoreStep(a, drop, l, p, c, k);
    }
  }

  /** If two results from p + 1 differ by the bit k, those from p do so one bit up, unless p is dropped. */
  lemma OneMoreStep(a: nat, drop: set<nat>, l: nat, p: nat, c: nat, k: nat)
    requires p < l && Compress(a / 2, drop, p + 1) == c && Compress(a / 2, drop + {l}, p + 1) == RemoveBit(c, k)
    ensures Compress(a, drop + {l}, p) == RemoveBit(Compress(a, drop, p), if p in drop then k else k + 1)
  {
    CompressStep(a, drop, p);
    CompressStep(a, drop + {l}, p);
    RemoveBitAbove(a % 2, c, k + 1);
  }

  /** A bit inserted above the dropped positions, once dropped, leaves no trace. */
  lemma {:induction false} CompressInserted(a: nat, drop: set<nat>, l: nat, g: bool, p: nat)
    requires p <= l && (forall s :: s in drop ==> s < l)
    ensures Compress(InsertBit(a, l - p, g), drop + {l}, p) == Compress(a, drop, p)
    decreases l - p
  {
    var b, more := InsertBit(a, l - p, g), drop + {l};
    InsertBitHalf(a, l - p, g);
    if p == l {
      CompressStep(b, more, p);
      CompressAbove(a, drop, p);
      CompressAbove(a, more, p + 1);
    } else {
      CompressInserted(a / 2, drop, l, g, p + 1);
      InsertedStep(a, drop, l, b, p, Compress(a / 2, drop, p + 1));
    }
  }

  lemma InsertedStep(a: nat, drop: set<nat>, l: nat, b: nat, p: nat, c: nat)
    requires p < l && a % 2 == b % 2 && Compress(a / 2, drop, p + 1) == c && Compress(b / 2, drop + {l}, p + 1) == c
    ensures Compress(b, drop + {l}, p) == Compress(a, drop, p)
  {
    CompressStep(a, drop, p);
    CompressStep(b, drop + {l}, p);
  }

  lemma {:induction false} CompressWritten(a: nat, drop: set<nat>, l: nat, g: bool, p: nat)
    requires p <= l && l in drop
    ensures Compress(SetBit(a, l - p, g), drop, p) == Compress(a, drop, p)
    decreases l - p
  {
    SetBitHalf(a, l - p, g);
    CompressStep(a, drop, p);
    CompressStep(SetBit(a, l - p, g), drop, p);
    if p < l {
      CompressWritten(a / 2, drop, l, g, p + 1);
    }
  }

  lemma {:induction false} CompressBound(a: nat, drop: set<nat>, p: nat, n: nat)
    requires p <= n && a < Pow2(n - p)
    ensures Compress(a, drop, p) < Pow2(n - p - CountIn(drop, p, n))
    decreases n - p
  {
    CompressStep(a, drop, p);
    if p < n { CompressBound(a / 2, drop, p + 1, n); }
  }

  // ----- counting the dropped positions -----

  lemma {:induction false} CountInIsSize(drop: set<nat>, p: nat, q: nat)
    requires forall s :: s in drop ==> p <= s < q
    ensures CountIn(drop, p, q) == |drop|
    decreases q - p
  {
    if p >= q {
      assert drop == {};
    } else {
      CountInIsSize(drop - {p}, p + 1, q);
      CountInSame(drop, drop - {p}, p + 1, q);
    }
  }

  lemma {:induction false} CountInSame(s: set<nat>, t: set<nat>, p: nat, q: nat)
    requires forall i :: p <= i < q ==> (i in s <==> i in t)
    ensures CountIn(s, p, q) == CountIn(t, p, q)
    decreases q - p
  {
    if p < q { CountInSame(s, t, p + 1, q); }
  }

  lemma {:induction false} LsbSetSize(masks: seq<nat>)
    requires DistinctLsbs(masks)
    ensures |LsbSet(masks)| == |masks|
  {
    if |masks| > 0 {
      var k := |masks| - 1;
      LsbSetSize(masks[..k]);
      assert LsbSet(masks) == LsbSet(masks[..k]) + {Lsb(masks[k])};
    }
  }

  lemma CountAll(masks: seq<nat>, n: nat)
    requires DistinctLsbs(masks) && (forall s :: s in LsbSet(masks) ==> s < n)
    ensures CountIn(LsbSet(masks), 0, n) == |masks|
  {
    LsbSetSize(masks);
    CountInIsSize(LsbSet(masks), 0, n);
  }
}
