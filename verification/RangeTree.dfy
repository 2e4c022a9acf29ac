/**
 * The ordered map of ranges under base/addr_range_map.hh: its nodes in the order
 * of the keys, and the neighbour search against a scan of all nodes.
 */
module RangeTrees {
  import opened AddrRanges
  import opened AddrRangeSets
  import opened Chains

  /** A node of the std::map; its identity is what an iterator denotes. */
  class Node<V> {
    const key: AddrRange
    const value: V

    constructor (k: AddrRange, v: V)
      ensures key == k && value == v
    {
      key, value := k, v;
    }
  }

  /** The ranges that a map may store: not empty, with a selector that fits in an int and a granularity. */
  ghost predicate Storable(r: AddrRange)
  {
    Nonempty(r) && |r.masks| <= 31 && r.HasGranule()
  }

  /** Ranges with overlapping spans are both contiguous, or stripes of one span. */
  predicate Compatible(q: AddrRange, r: AddrRange)
  {
    q.start >= r.end || q.end <= r.start || (!q.Interleaved() && !r.Interleaved()) || q.MergesWith(r)
  }

  ghost predicate CompatibleWithAll<V>(q: AddrRange, tree: seq<Node<V>>)
  {
    forall i :: 0 <= i < |tree| ==> Compatible(q, tree[i].key)
  }

  /** p comes before r, is compatible with r and has no address in common with r. */
  ghost predicate Before(p: AddrRange, r: AddrRange)
  {
    p.Less(r) && Compatible(p, r) && !ShareAddress(p, r)
  }

  /** Storable keys in strictly increasing order, compatible and without a common address. */
  ghost predicate ValidTree<V>(tree: seq<Node<V>>)
  {
    && (forall i :: 0 <= i < |tree| ==> Storable(tree[i].key))
    && (forall i, j :: 0 <= i < j < |tree| ==> Before(tree[i].key, tree[j].key))
  }

  ghost predicate StorableNode<V>(n: Node<V>)
  {
    Storable(n.key)
  }

  ghost predicate NodeBefore<V>(m: Node<V>, n: Node<V>)
  {
    Before(m.key, n.key)
  }

  lemma ValidTreeIsChain<V>(tree: seq<Node<V>>)
    ensures ValidTree(tree) <==> Chain(tree, StorableNode, NodeBefore)
  {
    var ok: Node<V> -> bool, before: (Node<V>, Node<V>) -> bool := StorableNode, NodeBefore;
    assert forall i :: 0 <= i < |tree| ==> ok(tree[i]) == Storable(tree[i].key);
    assert forall i, j :: 0 <= i < j < |tree| ==> before(tree[i], tree[j]) == Before(tree[i].key, tree[j].key);
  }

  /** A contiguous range to look up. */
  ghost predicate Query(q: AddrRange)
  {
    Spanned(q) && !q.Interleaved()
  }

  /** std::map::upper_bound, as a position. */
  function UpperBound<V>(tree: seq<Node<V>>, r: AddrRange): (k: nat)
    ensures k <= |tree|
    ensures forall i :: 0 <= i < k ==> !r.Less(tree[i].key)
    ensures k < |tree| ==> r.Less(tree[k].key)
  {
    if |tree| == 0 || r.Less(tree[0].key) then 0 else 1 + UpperBound(tree[1..], r)
  }

  /** The backwards search of find() from position k: the entry it returns, or null. */
  function Descend<V>(tree: seq<Node<V>>, k: nat, cond: AddrRange -> bool): (it: Node?<V>)
    requires k <= |tree|
  {
    if k == 0 then null
    else if cond(tree[k - 1].key) then tree[k - 1]
    else if k >= 2 && tree[k - 2].key.MergesWith(tree[k - 1].key) then Descend(tree, k - 1, cond)
    else null
  }

  /** The search of find() behind its cache. */
  function Probe<V>(tree: seq<Node<V>>, r: AddrRange, cond: AddrRange -> bool): (it: Node?<V>)
  {
    var k := UpperBound(tree, r);
    if k < |tree| && cond(tree[k].key) then tree[k] else Descend(tree, k, cond)
  }

  /** The first of the cached entries that meets the condition, or null. */
  function FirstHit<V>(cache: seq<Node<V>>, cond: AddrRange -> bool): (it: Node?<V>)
    ensures it != null ==> it in cache && cond(it.key)
    ensures it == null ==> forall n :: n in cache ==> !cond(n.key)
  {
    if |cache| == 0 then null
    else if cond(cache[0].key) then cache[0]
    else FirstHit(cache[1..], cond)
  }

  function Lookup<V>(cache: seq<Node<V>>, tree: seq<Node<V>>, r: AddrRange, cond: AddrRange -> bool): (it: Node?<V>)
  {
    var hit := FirstHit(cache, cond);
    if hit != null then hit else Probe(tree, r, cond)
  }

  // ----- the search finds what it passes -----

  lemma {:induction false} DescendSound<V>(tree: seq<Node<V>>, k: nat, cond: AddrRange -> bool)
    requires k <= |tree|
    ensures var it := Descend(tree, k, cond); it != null ==> it in tree && cond(it.key)
  {
    if k > 0 { DescendSound(tree, k - 1, cond); }
  }

  lemma ProbeSound<V>(tree: seq<Node<V>>, r: AddrRange, cond: AddrRange -> bool)
    ensures var it := Probe(tree, r, cond); it != null ==> it in tree && cond(it.key)
  {
    DescendSound(tree, UpperBound(tree, r), cond);
  }

  /** The nodes from i to k - 1 all merge with their neighbours. */
  ghost predicate MergingRun<V>(tree: seq<Node<V>>, i: nat, k: nat)
    requires i < k <= |tree|
  {
    forall t :: i <= t < k - 1 ==> tree[t].key.MergesWith(tree[t + 1].key)
  }

  lemma {:induction false} DescendComplete<V>(tree: seq<Node<V>>, i: nat, k: nat, cond: AddrRange -> bool)
    requires i < k <= |tree| && MergingRun(tree, i, k) && cond(tree[i].key)
    ensures Descend(tree, k, cond) != null
  {
    if !cond(tree[k - 1].key) {
      assert tree[k - 2].key.MergesWith(tree[k - 1].key);
      DescendComplete(tree, i, k - 1, cond);
    }
  }

  // ----- order of compatible keys -----

  /** Of two entries without a common address, the one that starts within the other merges with it. */
  lemma OverlapMerges(p: AddrRange, r: AddrRange)
    requires Storable(p) && Storable(r) && Compatible(r, p) && !ShareAddress(r, p)
    requires r.start <= p.start < r.end
    ensures r.MergesWith(p) && r.Interleaved()
  {
    if !r.Interleaved() && !p.Interleaved() { ContiguousShare(r, p); }
  }

  lemma ContiguousShare(r: AddrRange, p: AddrRange)
    requires Spanned(r) && Spanned(p) && !r.Interleaved() && !p.Interleaved() && r.start <= p.start < r.end
    ensures ShareAddress(r, p)
  {
    assert r.Has(p.start) && p.Has(p.start);
  }

  /** Entries between one that spans the query's start and the query's place merge with it. */
  lemma BetweenMerges<V>(tree: seq<Node<V>>, i: nat, t: nat, s: nat)
    requires ValidTree(tree) && i <= t < |tree|
    requires tree[i].key.start <= s < tree[i].key.end && tree[t].key.start <= s
    ensures tree[i].key.MergesWith(tree[t].key)
  {
    if i < t { OverlapMerges(tree[t].key, tree[i].key); }
  }

  /** The entry that contains a query lies in the run of merging predecessors. */
  lemma ContainsInRun<V>(tree: seq<Node<V>>, q: AddrRange, i: nat)
    requires ValidTree(tree) && Query(q) && i < |tree| && q.IsSubset(tree[i].key)
    ensures i < UpperBound(tree, q) && MergingRun(tree, i, UpperBound(tree, q))
  {
    var k := UpperBound(tree, q);
    assert tree[i].key.start <= q.start < tree[i].key.end;
    forall t | i <= t < k - 1 ensures tree[t].key.MergesWith(tree[t + 1].key) {
      BetweenMerges(tree, i, t, q.start);
      BetweenMerges(tree, i, t + 1, q.start);
    }
  }

  /** No two entries contain the same query. */
  lemma ContainsUnique<V>(tree: seq<Node<V>>, q: AddrRange, i: nat, j: nat)
    requires ValidTree(tree) && Query(q) && i < |tree| && j < |tree|
    requires q.IsSubset(tree[i].key) && q.IsSubset(tree[j].key)
    ensures i == j
  {
    IsSubsetExact(q, tree[i].key);
    IsSubsetExact(q, tree[j].key);
    assert q.Has(q.start);
    assert tree[i].key.Has(q.start) && tree[j].key.Has(q.start);
  }

  // ----- lookups agree with a scan of all entries -----

  function SubsetTest(q: AddrRange): AddrRange -> bool
  {
    (r: AddrRange) => !q.Interleaved() && r.HasGranule() && q.IsSubset(r)
  }

  function IntersectTest(q: AddrRange): AddrRange -> bool
  {
    (r: AddrRange) => Hits(q, r)
  }

  /** intersects() of two ranges that it is prepared to compare. */
  predicate Hits(q: AddrRange, r: AddrRange)
  {
    q.Comparable(r) && q.Intersects(r)
  }

  /** contains(): whatever the cache holds, the answer is the one entry that a scan finds, or none. */
  lemma ContainsIsScan<V>(cache: seq<Node<V>>, tree: seq<Node<V>>, q: AddrRange)
    requires ValidTree(tree) && Query(q) && (forall n :: n in cache ==> n in tree)
    ensures var it := Lookup(cache, tree, q, SubsetTest(q));
            && (it != null ==> it in tree && q.IsSubset(it.key))
            && (forall n :: n in tree && q.IsSubset(n.key) ==> n == it)
  {
    var cond := SubsetTest(q);
    var it := Lookup(cache, tree, q, cond);
    ProbeSound(tree, q, cond);
    forall n | n in tree && q.IsSubset(n.key) ensures n == it {
      var i :| 0 <= i < |tree| && tree[i] == n;
      ContainsInRun(tree, q, i);
      DescendComplete(tree, i, UpperBound(tree, q), cond);
      var j :| 0 <= j < |tree| && tree[j] == it;
      ContainsUnique(tree, q, i, j);
    }
  }

  /** contains() of one address other than the last: the one entry that has the address, or none. */
  lemma AddressIsScan<V>(cache: seq<Node<V>>, tree: seq<Node<V>>, a: Addr)
    requires ValidTree(tree) && a != MaxAddr && (forall n :: n in cache ==> n in tree)
    ensures var it := Lookup(cache, tree, RangeOfAddress(a), SubsetTest(RangeOfAddress(a)));
            && (it != null ==> it in tree && it.key.Has(a))
            && (forall n :: n in tree && n.key.Has(a) ==> n == it)
  {
    ContainsIsScan(cache, tree, RangeOfAddress(a));
    forall n | n in tree ensures RangeOfAddress(a).IsSubset(n.key) <==> n.key.Has(a) {
      var i :| 0 <= i < |tree| && tree[i] == n;
      SingleAddress(a, n.key);
    }
  }

  // ----- intersects() between stored ranges -----

  /** Against a stored range that holds its start if its size is 1, intersects() means sharing an address. */
  lemma CompatibleIntersects(q: AddrRange, r: AddrRange)
    requires Storable(q) && Storable(r) && Compatible(q, r) && StartsRight(r)
    ensures Hits(q, r) <==> ShareAddress(q, r)
  {
    if q.start < r.end && r.start < q.end {
      if !q.Interleaved() && !r.Interleaved() {
        ContiguousShare(if q.start <= r.start then q else r, if q.start <= r.start then r else q);
      } else if r.Size() == 1 {
        assert r.Has(r.start);
      }
    }
  }

  ghost predicate HitsRight(r: AddrRange)
  {
    forall q: AddrRange :: Storable(q) && Compatible(q, r) ==> (Hits(q, r) <==> ShareAddress(q, r))
  }

  /**
   * Against a stored range, intersects() means sharing an address for every storable range that is
   * compatible with it exactly when the range holds its start if its computed size is 1.
   */
  lemma HitsRightWhen(r: AddrRange)
    requires Storable(r)
    ensures HitsRight(r) <==> StartsRight(r)
  {
    if StartsRight(r) {
      forall q: AddrRange | Storable(q) && Compatible(q, r) ensures Hits(q, r) <==> ShareAddress(q, r) {
        CompatibleIntersects(q, r);
      }
    } else {
      var a: nat :| r.Has(a);
      assert Compatible(r, r) && ShareAddress(r, r) && !Hits(r, r);
    }
  }

  /** A range that intersects() does not find in a compatible one is equal to it or shares no address with it. */
  lemma MissedIsEqual(q: AddrRange, r: AddrRange)
    requires Storable(q) && Storable(r) && Compatible(q, r) && !Hits(q, r)
    ensures q == r || !ShareAddress(q, r)
  {
  }

  /** Between stripes of one span intersects() looks at the start only if their size is 1. */
  lemma StripeHits(q: AddrRange, r: AddrRange)
    requires Storable(q) && Storable(r) && q.MergesWith(r) && q.Interleaved()
    ensures Hits(q, r) <==> if q.Size() == 1 then q.Has(q.start) else q == r
  {
  }

  /** A stripe that hits a compatible range is a stripe of the same span. */
  lemma HitMerges(q: AddrRange, r: AddrRange)
    requires Storable(q) && Storable(r) && Compatible(q, r) && q.Interleaved() && Hits(q, r)
    ensures q.MergesWith(r)
  {
  }

  lemma StripeFound<V>(tree: seq<Node<V>>, q: AddrRange, i: nat)
    requires ValidTree(tree) && Storable(q) && i < |tree| && q.Interleaved() && q == tree[i].key && Hits(q, q)
    ensures Probe(tree, q, IntersectTest(q)) != null
  {
    var k := UpperBound(tree, q);
    assert k > 0 ==> !q.Less(tree[k - 1].key);
    assert i == k - 1;
    DescendComplete(tree, i, k, IntersectTest(q));
  }

  /** A stripe of size 1 that hits one stripe of its span hits the neighbour of its place. */
  lemma SizeOneFound<V>(tree: seq<Node<V>>, q: AddrRange, i: nat)
    requires ValidTree(tree) && Storable(q) && i < |tree| && q.Interleaved() && q.Size() == 1
    requires q.MergesWith(tree[i].key) && q.Has(q.start)
    ensures Probe(tree, q, IntersectTest(q)) != null
  {
    var k := UpperBound(tree, q);
    if i < k {
      BetweenMerges(tree, i, k - 1, q.start);
      StripeHits(q, tree[k - 1].key);
    } else {
      if k < i { assert Before(tree[k].key, tree[i].key); }
      BetweenMerges(tree, k, i, q.start);
      StripeHits(q, tree[k].key);
    }
  }

  lemma LaterFound<V>(tree: seq<Node<V>>, q: AddrRange, i: nat)
    requires ValidTree(tree) && Storable(q) && CompatibleWithAll(q, tree) && !q.Interleaved()
    requires i < |tree| && q.start < tree[i].key.start < q.end
    ensures Probe(tree, q, IntersectTest(q)) != null
  {
    var k := UpperBound(tree, q);
    assert k <= i;
    if k < i { assert Before(tree[k].key, tree[i].key); }
    assert Compatible(q, tree[k].key);
  }

  lemma EarlierFound<V>(tree: seq<Node<V>>, q: AddrRange, i: nat)
    requires ValidTree(tree) && Storable(q) && CompatibleWithAll(q, tree) && !q.Interleaved()
    requires i < |tree| && tree[i].key.start <= q.start < tree[i].key.end && IntersectTest(q)(tree[i].key)
    ensures Probe(tree, q, IntersectTest(q)) != null
  {
    var k := UpperBound(tree, q);
    if i < k - 1 { OverlapMerges(tree[k - 1].key, tree[i].key); }
    DescendComplete(tree, i, k, IntersectTest(q));
  }

  lemma IntersectFound<V>(tree: seq<Node<V>>, q: AddrRange, i: nat)
    requires ValidTree(tree) && Storable(q) && CompatibleWithAll(q, tree)
    requires i < |tree| && Hits(q, tree[i].key)
    ensures Probe(tree, q, IntersectTest(q)) != null
  {
    if q.Interleaved() {
      HitMerges(q, tree[i].key);
      StripeHits(q, tree[i].key);
      if q.Size() == 1 { SizeOneFound(tree, q, i); } else { StripeFound(tree, q, i); }
    } else if tree[i].key.start > q.start {
      LaterFound(tree, q, i);
    } else {
      EarlierFound(tree, q, i);
    }
  }

  ghost predicate AllStartRight<V>(tree: seq<Node<V>>)
  {
    forall n :: n in tree ==> StartsRight(n.key)
  }

  /** intersects(): an entry is found exactly when a scan of all entries with the same test finds one. */
  lemma IntersectIsScan<V>(cache: seq<Node<V>>, tree: seq<Node<V>>, q: AddrRange)
    requires ValidTree(tree) && Storable(q) && CompatibleWithAll(q, tree) && (forall n :: n in cache ==> n in tree)
    ensures var it := Lookup(cache, tree, q, IntersectTest(q));
            && (it != null ==> it in tree && Hits(q, it.key))
            && (it == null ==> forall n :: n in tree ==> !Hits(q, n.key))
  {
    var it := Lookup(cache, tree, q, IntersectTest(q));
    ProbeSound(tree, q, IntersectTest(q));
    forall n | n in tree && it == null ensures !Hits(q, n.key) {
      var i :| 0 <= i < |tree| && tree[i] == n;
      if Hits(q, tree[i].key) { IntersectFound(tree, q, i); }
    }
  }

  /** The test of the ranges and the common addresses, entry by entry. */
  lemma HitsAreShared<V>(tree: seq<Node<V>>, q: AddrRange)
    requires ValidTree(tree) && Storable(q) && CompatibleWithAll(q, tree) && AllStartRight(tree)
    ensures forall n :: n in tree ==> (Hits(q, n.key) <==> ShareAddress(q, n.key))
  {
    forall n | n in tree ensures Hits(q, n.key) <==> ShareAddress(q, n.key) {
      var i :| 0 <= i < |tree| && tree[i] == n;
      CompatibleIntersects(q, tree[i].key);
    }
  }

  ghost predicate RefusesRight<V>(tree: seq<Node<V>>)
  {
    forall q: AddrRange :: Storable(q) && CompatibleWithAll(q, tree) ==>
                             ((exists n :: n in tree && Hits(q, n.key)) <==> (exists n :: n in tree && ShareAddress(q, n.key)))
  }

  /**
   * For every range that may be inserted, some entry intersects exactly when some entry shares an
   * address with it: exactly when every stored stripe of size 1 holds its start.
   */
  lemma RefusesRightWhen<V>(tree: seq<Node<V>>)
    requires ValidTree(tree)
    ensures RefusesRight(tree) <==> AllStartRight(tree)
  {
    if AllStartRight(tree) {
      forall q: AddrRange | Storable(q) && CompatibleWithAll(q, tree)
        ensures (exists n :: n in tree && Hits(q, n.key)) <==> (exists n :: n in tree && ShareAddress(q, n.key))
      {
        HitsAreShared(tree, q);
      }
    } else {
      var n :| n in tree && !StartsRight(n.key);
      var i :| 0 <= i < |tree| && tree[i] == n;
      MissesItself(tree, i);
      assert ShareAddress(n.key, n.key);
    }
  }

  /** A stored stripe of size 1 without its start is seen by no entry, itself included. */
  lemma MissesItself<V>(tree: seq<Node<V>>, i: nat)
    requires ValidTree(tree) && i < |tree| && !StartsRight(tree[i].key)
    ensures CompatibleWithAll(tree[i].key, tree) && (forall n :: n in tree ==> !Hits(tree[i].key, n.key))
    ensures exists a: nat :: tree[i].key.Has(a)
  {
    var q := tree[i].key;
    forall j | 0 <= j < |tree| ensures Compatible(q, tree[j].key) && !Hits(q, tree[j].key) {
      if i < j { assert Before(q, tree[j].key); }
      if j < i { assert Before(tree[j].key, q); }
      if Hits(q, tree[j].key) {
        HitMerges(q, tree[j].key);
        StripeHits(q, tree[j].key);
      }
    }
  }

  // ----- which of the intersecting entries is found -----

  predicate HitAt<V>(tree: seq<Node<V>>, q: AddrRange, i: int)
  {
    0 <= i < |tree| && Hits(q, tree[i].key)
  }

  /** Below the query's place, the hits are the last entries. */
  lemma HitsBelow<V>(tree: seq<Node<V>>, q: AddrRange, i: nat, j: nat)
    requires ValidTree(tree) && Storable(q) && CompatibleWithAll(q, tree)
    requires i <= j < UpperBound(tree, q) && HitAt(tree, q, i)
    ensures HitAt(tree, q, j)
  {
    if q.Interleaved() {
      HitMerges(q, tree[i].key);
      StripeHits(q, tree[i].key);
      BetweenMerges(tree, i, j, q.start);
      StripeHits(q, tree[j].key);
      if i < j { assert Before(tree[i].key, tree[j].key); }
    } else if i < j {
      OverlapMerges(tree[j].key, tree[i].key);
    }
  }

  /** From the query's place on, the hits are the first entries. */
  lemma HitsAbove<V>(tree: seq<Node<V>>, q: AddrRange, i: nat, k: nat)
    requires ValidTree(tree) && Storable(q) && CompatibleWithAll(q, tree)
    requires k == UpperBound(tree, q) && k <= i && HitAt(tree, q, i)
    ensures HitAt(tree, q, k)
  {
    if k < i { assert Before(tree[k].key, tree[i].key); }
    if q.Interleaved() {
      HitMerges(q, tree[i].key);
      StripeHits(q, tree[i].key);
      BetweenMerges(tree, k, i, q.start);
      StripeHits(q, tree[k].key);
    } else {
      assert Compatible(q, tree[k].key);
    }
  }

  lemma {:induction false} FirstHitAt<V>(nodes: seq<Node<V>>, cond: AddrRange -> bool, i: nat)
    requires i < |nodes| && cond(nodes[i].key) && (forall j :: 0 <= j < i ==> !cond(nodes[j].key))
    ensures FirstHit(nodes, cond) == nodes[i]
  {
    if i > 0 { FirstHitAt(nodes[1..], cond, i - 1); }
  }

  /** The first entry that hits, given one that does. */
  lemma FirstIndex<V>(tree: seq<Node<V>>, q: AddrRange, n: nat) returns (f: nat)
    requires HitAt(tree, q, n)
    ensures f <= n && HitAt(tree, q, f) && FirstHit(tree, IntersectTest(q)) == tree[f]
    ensures forall i :: 0 <= i < f ==> !HitAt(tree, q, i)
  {
    f := 0;
    while !HitAt(tree, q, f)
      invariant f <= n && forall i :: 0 <= i < f ==> !HitAt(tree, q, i)
      decreases n - f
    {
      f := f + 1;
    }
    forall i | 0 <= i < f ensures !IntersectTest(q)(tree[i].key) { assert !HitAt(tree, q, i); }
    FirstHitAt(tree, IntersectTest(q), f);
  }

  /** If the entry at i hits, it is the first to do so exactly when the one before it does not. */
  lemma FirstWhen<V>(tree: seq<Node<V>>, q: AddrRange, i: nat)
    requires ValidTree(tree) && Storable(q) && CompatibleWithAll(q, tree)
    requires HitAt(tree, q, i) && i <= UpperBound(tree, q)
    ensures FirstHit(tree, IntersectTest(q)) == tree[i] <==> !HitAt(tree, q, i - 1)
  {
    var f := FirstIndex(tree, q, i);
    if f < i {
      HitsBelow(tree, q, f, i - 1);
      NodesDistinct(tree, f, i);
    }
  }

  /** If some entry hits, a neighbour of the query's place does. */
  lemma NeighbourHits<V>(tree: seq<Node<V>>, q: AddrRange, i: nat, k: nat)
    requires ValidTree(tree) && Storable(q) && CompatibleWithAll(q, tree) && HitAt(tree, q, i) && k == UpperBound(tree, q)
    ensures HitAt(tree, q, k) || HitAt(tree, q, k - 1)
  {
    if i >= k { HitsAbove(tree, q, i, k); } else { HitsBelow(tree, q, i, k - 1); }
  }

  /** The search returns the successor of the query's place if it hits, or else the predecessor. */
  lemma ProbeNeighbours<V>(tree: seq<Node<V>>, q: AddrRange, k: int)
    requires k == UpperBound(tree, q)
    ensures HitAt(tree, q, k) ==> Probe(tree, q, IntersectTest(q)) == tree[k]
    ensures !HitAt(tree, q, k) && HitAt(tree, q, k - 1) ==> Probe(tree, q, IntersectTest(q)) == tree[k - 1]
  {
  }

  /**
   * The search behind the cache returns the first of the entries that intersect exactly when not both
   * neighbours of the query's place do, nor both of the two entries before it.
   */
  lemma ProbeIsFirstWhen<V>(tree: seq<Node<V>>, q: AddrRange, i: nat, k: int)
    requires ValidTree(tree) && Storable(q) && CompatibleWithAll(q, tree) && HitAt(tree, q, i) && k == UpperBound(tree, q)
    ensures Probe(tree, q, IntersectTest(q)) == FirstHit(tree, IntersectTest(q)) <==>
            !(HitAt(tree, q, k - 1) && (HitAt(tree, q, k) || HitAt(tree, q, k - 2)))
  {
    NeighbourHits(tree, q, i, k);
    if HitAt(tree, q, k) { SuccessorFirst(tree, q, k); } else { PredecessorFirst(tree, q, k); }
  }

  lemma SuccessorFirst<V>(tree: seq<Node<V>>, q: AddrRange, k: int)
    requires ValidTree(tree) && Storable(q) && CompatibleWithAll(q, tree) && k == UpperBound(tree, q) && HitAt(tree, q, k)
    ensures Probe(tree, q, IntersectTest(q)) == FirstHit(tree, IntersectTest(q)) <==> !HitAt(tree, q, k - 1)
  {
    ProbeNeighbours(tree, q, k);
    FirstWhen(tree, q, k);
  }

  lemma PredecessorFirst<V>(tree: seq<Node<V>>, q: AddrRange, k: int)
    requires ValidTree(tree) && Storable(q) && CompatibleWithAll(q, tree) && k == UpperBound(tree, q)
    requires !HitAt(tree, q, k) && HitAt(tree, q, k - 1)
    ensures Probe(tree, q, IntersectTest(q)) == FirstHit(tree, IntersectTest(q)) <==> !HitAt(tree, q, k - 2)
  {
    ProbeNeighbours(tree, q, k);
    FirstWhen(tree, q, k - 1);
  }

  /** For a contiguous query only the neighbours matter: two entries before its place cannot both intersect. */
  lemma ContiguousHits<V>(tree: seq<Node<V>>, q: AddrRange, k: int)
    requires ValidTree(tree) && Storable(q) && CompatibleWithAll(q, tree) && !q.Interleaved() && k == UpperBound(tree, q)
    ensures !(HitAt(tree, q, k - 1) && HitAt(tree, q, k - 2))
  {
    if HitAt(tree, q, k - 1) && HitAt(tree, q, k - 2) { OverlapMerges(tree[k - 1].key, tree[k - 2].key); }
  }

  /** The least of the entries that hit. */
  ghost predicate LeastHit<V>(tree: seq<Node<V>>, q: AddrRange, n: Node<V>)
  {
    forall i :: 0 <= i < |tree| && HitAt(tree, q, i) ==> tree[i] == n || n.key.Less(tree[i].key)
  }

  /**
   * intersects() returns the first cached hit, whatever its place in the map, and without one what the
   * search finds: when that is the first of the entries that intersect.
   */
  lemma LookupIsFirstWhen<V>(cache: seq<Node<V>>, tree: seq<Node<V>>, q: AddrRange, i: nat, k: int)
    requires ValidTree(tree) && Storable(q) && CompatibleWithAll(q, tree) && (forall n :: n in cache ==> n in tree)
    requires HitAt(tree, q, i) && k == UpperBound(tree, q)
    ensures var cached := FirstHit(cache, IntersectTest(q));
            var it := Lookup(cache, tree, q, IntersectTest(q));
            && (cached != null ==> it == cached)
            && (it == FirstHit(tree, IntersectTest(q)) <==>
                if cached != null then LeastHit(tree, q, cached)
                else !(HitAt(tree, q, k - 1) && (HitAt(tree, q, k) || HitAt(tree, q, k - 2))))
  {
    var cached := FirstHit(cache, IntersectTest(q));
    if cached != null {
      var c :| 0 <= c < |tree| && tree[c] == cached;
      LeastIsFirst(tree, q, c);
    } else {
      ProbeIsFirstWhen(tree, q, i, k);
    }
  }

  /** Among the hits, the first in the map is the least. */
  lemma LeastIsFirst<V>(tree: seq<Node<V>>, q: AddrRange, c: nat)
    requires ValidTree(tree) && HitAt(tree, q, c)
    ensures tree[c] == FirstHit(tree, IntersectTest(q)) <==> LeastHit(tree, q, tree[c])
  {
    var f := FirstIndex(tree, q, c);
    if f < c {
      assert Before(tree[f].key, tree[c].key);
      NodesDistinct(tree, f, c);
    } else {
      forall i | 0 <= i < |tree| && HitAt(tree, q, i) ensures tree[i] == tree[c] || tree[c].key.Less(tree[i].key) {
        if c < i { assert Before(tree[c].key, tree[i].key); }
      }
    }
  }

  /** intersects() never panics between compatible ranges. */
  lemma NeverPanics<V>(tree: seq<Node<V>>, q: AddrRange)
    requires CompatibleWithAll(q, tree)
    ensures forall n :: n in tree ==> q.Comparable(n.key) && n.key.Comparable(q)
  {
    forall n | n in tree ensures q.Comparable(n.key) && n.key.Comparable(q) {
      var i :| 0 <= i < |tree| && tree[i] == n;
    }
  }

  // ----- inserting -----

  /** A range and a compatible one that has the same place in the order are equal, or intersects() sees them. */
  lemma EquivalentIsEqual(q: AddrRange, r: AddrRange)
    requires Storable(q) && Storable(r) && Compatible(q, r) && !Hits(q, r) && !q.Less(r) && !r.Less(q)
    ensures q == r
  {
  }

  /**
   * Where std::map::insert() puts a range that intersects() does not see: at an equal key, which stays
   * as it is, or between keys that share no address with it.
   */
  lemma InsertPlace<V>(tree: seq<Node<V>>, r: AddrRange)
    requires ValidTree(tree) && Storable(r) && CompatibleWithAll(r, tree) && (forall n :: n in tree ==> !Hits(r, n.key))
    ensures var k := UpperBound(tree, r);
            if k > 0 && !tree[k - 1].key.Less(r) then tree[k - 1].key == r
            else forall n :: n in tree ==> n.key != r && !ShareAddress(r, n.key)
  {
    var k := UpperBound(tree, r);
    if k > 0 && !tree[k - 1].key.Less(r) {
      assert tree[k - 1] in tree;
      EquivalentIsEqual(r, tree[k - 1].key);
    } else {
      forall n | n in tree ensures n.key != r && !ShareAddress(r, n.key) {
        var i :| 0 <= i < |tree| && tree[i] == n;
        MissedIsEqual(r, tree[i].key);
        EqualIsBefore(tree, r, i);
      }
    }
  }

  lemma EqualIsBefore<V>(tree: seq<Node<V>>, r: AddrRange, i: nat)
    requires ValidTree(tree) && i < |tree|
    ensures tree[i].key == r ==> i == UpperBound(tree, r) - 1
  {
    var k := UpperBound(tree, r);
    if k < i { TreeLess(tree, k, i); }
    if i < k - 1 { TreeLess(tree, i, k - 1); }
  }

  lemma TreeLess<V>(tree: seq<Node<V>>, i: nat, j: nat)
    requires ValidTree(tree) && i < j < |tree|
    ensures tree[i].key.Less(tree[j].key)
  {
    assert Before(tree[i].key, tree[j].key);
  }

  lemma LessTotal(q: AddrRange, r: AddrRange)
    requires Storable(q) && Storable(r) && Compatible(q, r) && !ShareAddress(q, r)
    ensures q.Less(r) || r.Less(q)
  {
    if q.start == r.start {
      OverlapMerges(r, q);
    }
  }

  lemma LessTransitive(p: AddrRange, q: AddrRange, r: AddrRange)
    requires p.Less(q) && q.Less(r)
    ensures p.Less(r)
  {
  }

  lemma InsertKeepsValid<V>(tree: seq<Node<V>>, n: Node<V>)
    requires ValidTree(tree) && Storable(n.key) && CompatibleWithAll(n.key, tree)
    requires forall m :: m in tree ==> !ShareAddress(n.key, m.key)
    ensures var k := UpperBound(tree, n.key);
            ValidTree(tree[..k] + [n] + tree[k..]) && (k > 0 ==> tree[k - 1].key.Less(n.key))
  {
    var k := UpperBound(tree, n.key);
    forall i | 0 <= i < k ensures Before(tree[i].key, n.key) {
      assert tree[i] in tree;
      LessTotal(n.key, tree[i].key);
    }
    forall i | k <= i < |tree| ensures Before(n.key, tree[i].key) {
      assert tree[i] in tree;
      if k < i {
        assert Before(tree[k].key, tree[i].key);
        LessTransitive(n.key, tree[k].key, tree[i].key);
      }
    }
    ValidTreeIsChain(tree);
    ValidTreeIsChain(tree[..k] + [n] + tree[k..]);
    ChainInsert(tree, StorableNode, NodeBefore, k, n);
  }

  lemma SliceKeepsValid<V>(tree: seq<Node<V>>, p: nat, q: nat)
    requires ValidTree(tree) && p <= q <= |tree|
    ensures ValidTree(tree[..p] + tree[q..])
  {
    ValidTreeIsChain(tree);
    ValidTreeIsChain(tree[..p] + tree[q..]);
    ChainSlice(tree, StorableNode, NodeBefore, p, q);
  }

  /** The order of the nodes: by start, and the stripes of one span by match value. */
  lemma TreeOrder<V>(tree: seq<Node<V>>, i: nat, j: nat)
    requires ValidTree(tree) && i < j < |tree|
    ensures var p, r := tree[i].key, tree[j].key;
            p.start < r.start || (p.MergesWith(r) && p.intlvMatch < r.intlvMatch)
  {
    assert Before(tree[i].key, tree[j].key);
    if tree[i].key.start == tree[j].key.start { OverlapMerges(tree[j].key, tree[i].key); }
  }

  /** The nodes of a valid tree are distinct. */
  lemma NodesDistinct<V>(tree: seq<Node<V>>, i: nat, j: nat)
    requires ValidTree(tree) && i < j < |tree|
    ensures tree[i] != tree[j]
  {
    assert Before(tree[i].key, tree[j].key);
  }

  // ----- the last address -----

  lemma {:induction false} DescendStripes<V>(tree: seq<Node<V>>, k: nat, cond: AddrRange -> bool)
    requires 0 < k <= |tree| && tree[k - 1].key.Interleaved()
    requires forall n :: n in tree ==> cond(n.key) == !n.key.Interleaved()
    ensures Descend(tree, k, cond) == null
  {
    assert tree[k - 1] in tree;
    if k >= 2 && tree[k - 2].key.MergesWith(tree[k - 1].key) { DescendStripes(tree, k - 1, cond); }
  }

  /** A search for contiguous entries from behind the tree. */
  lemma ContiguousLookup<V>(cache: seq<Node<V>>, tree: seq<Node<V>>, q: AddrRange, cond: AddrRange -> bool)
    requires (forall n :: n in cache ==> n in tree) && UpperBound(tree, q) == |tree|
    requires forall n :: n in tree ==> cond(n.key) == !n.key.Interleaved()
    ensures var it := Lookup(cache, tree, q, cond);
            && (it == null <==> (forall n :: n in cache ==> n.key.Interleaved()) && (|tree| > 0 ==> tree[|tree| - 1].key.Interleaved()))
            && (it != null ==> it in tree && !it.key.Interleaved())
  {
    ProbeSound(tree, q, cond);
    if |tree| > 0 {
      assert tree[|tree| - 1] in tree;
      if tree[|tree| - 1].key.Interleaved() { DescendStripes(tree, |tree|, cond); }
    }
  }

  /** A lookup of the last address takes any contiguous entry that it meets for an answer. */
  lemma LastAddressLookup<V>(cache: seq<Node<V>>, tree: seq<Node<V>>)
    requires ValidTree(tree) && (forall n :: n in cache ==> n in tree)
    ensures var q := RangeOfAddress(MaxAddr);
            var it := Lookup(cache, tree, q, SubsetTest(q));
            && (it == null <==> (forall n :: n in cache ==> n.key.Interleaved()) && (|tree| > 0 ==> tree[|tree| - 1].key.Interleaved()))
            && (it != null ==> it in tree && !it.key.Interleaved())
  {
    var q := RangeOfAddress(MaxAddr);
    var cond := SubsetTest(q);
    forall n | n in tree ensures cond(n.key) == !n.key.Interleaved() {
      var i :| 0 <= i < |tree| && tree[i] == n;
      SingleAddress(MaxAddr, n.key);
    }
    assert UpperBound(tree, q) == |tree|;
    ContiguousLookup(cache, tree, q, cond);
  }

  /**
   * What a lookup of one address may answer: the one entry that has the address, or none.  For
   * the last address, a contiguous entry, and none only if the search meets only stripes.
   */
  ghost predicate AddressAnswer<V>(cache: seq<Node<V>>, tree: seq<Node<V>>, a: Addr, it: Node?<V>)
  {
    if a != MaxAddr then
      && (it != null ==> it in tree && it.key.Has(a))
      && (forall n :: n in tree && n.key.Has(a) ==> n == it)
    else
      && (it == null <==> (forall n :: n in cache ==> n.key.Interleaved()) && (|tree| > 0 ==> tree[|tree| - 1].key.Interleaved()))
      && (it != null ==> it in tree && !it.key.Interleaved())
  }

  lemma AddressLookup<V>(cache: seq<Node<V>>, tree: seq<Node<V>>, a: Addr)
    requires ValidTree(tree) && (forall n :: n in cache ==> n in tree)
    ensures AddressAnswer(cache, tree, a, Lookup(cache, tree, RangeOfAddress(a), SubsetTest(RangeOfAddress(a))))
  {
    if a != MaxAddr { AddressIsScan(cache, tree, a); } else { LastAddressLookup(cache, tree); }
  }
}
