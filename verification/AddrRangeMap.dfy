/**
 * The address-decoding map of base/addr_range_map.hh: an ordered map of ranges
 * behind a list of its most recently used entries.
 */
module AddrRangeMaps {
  import opened AddrRanges
  import opened AddrRangeSets
  import opened RangeTrees
  import opened Recency

  class AddrRangeMap<V> {
    const maxCacheSize: nat
    var tree: seq<Node<V>>
    var cache: seq<Node<V>>

    /** The entries that lookups have returned, oldest use first; erased entries are forgotten. */
    ghost var used: seq<Node<V>>
    /** Whether no entry has been erased since the map was made or cleared. */
    ghost var unbroken: bool

    /** Every cached iterator denotes a node of the tree. */
    ghost predicate CacheValid()
      reads this
    {
      forall n :: n in cache ==> n in tree
    }

    ghost predicate Valid()
      reads this
    {
      && ValidTree(tree)
      && CacheValid()
      && (forall n :: n in used ==> n in tree)
      && cache <= ByRecency(used)
      && |cache| <= maxCacheSize
      && (unbroken ==> |cache| == Min(maxCacheSize, |ByRecency(used)|))
    }

    constructor (max: nat)
      ensures Valid() && maxCacheSize == max && tree == [] && cache == [] && used == [] && unbroken
    {
      maxCacheSize := max;
      tree, cache, used, unbroken := [], [], [], true;
    }

    lemma CacheDistinct()
      requires Valid()
      ensures Distinct(cache)
    {
      RecencyDistinct(used);
    }

    /** With no entry erased, the cache holds the most recently returned entries, as many as fit. */
    lemma CacheIsMostRecent()
      requires Valid() && unbroken
      ensures cache == ByRecency(used)[..Min(maxCacheSize, |ByRecency(used)|)]
    {
    }

    /** A full cache reuses its last element, which moves to the front. */
    method AddNewEntryToCache(it: Node<V>)
      requires it !in cache && |cache| <= maxCacheSize
      modifies this`cache
      ensures cache == Touch<Node<V>>(old(cache), it, maxCacheSize)
    {
      if maxCacheSize != 0 {
        if |cache| >= maxCacheSize {
          var last := |cache| - 1;
          cache := cache[last := it];
          if maxCacheSize > 1 {
            cache := [cache[last]] + cache[..last];
          }
        } else {
          cache := [it] + cache;
        }
      }
    }

    ghost method Record(it: Node<V>, before: seq<Node<V>>)
      requires ValidTree(tree) && (forall n :: n in used ==> n in tree) && it in tree
      requires before <= ByRecency(used) && |before| <= maxCacheSize && (forall n :: n in before ==> n in tree)
      requires unbroken ==> |before| == Min(maxCacheSize, |ByRecency(used)|)
      requires cache == Touch(before, it, maxCacheSize)
      modifies this`used
      ensures used == old(used) + [it] && Valid()
    {
      TouchKeepsPrefix(before, used, it, maxCacheSize);
      if unbroken { TouchKeepsFull(before, used, it, maxCacheSize); }
      used := used + [it];
    }

    /** The first part of find(): a cached entry that meets the condition moves to the front. */
    method CheckCache(cond: AddrRange -> bool) returns (it: Node?<V>)
      requires Distinct(cache)
      modifies this`cache
      ensures it == FirstHit(old(cache), cond)
      ensures cache == if it == null then old(cache) else Touch<Node<V>>(old(cache), it, maxCacheSize)
    {
      for c := 0 to |cache|
        invariant cache == old(cache)
        invariant FirstHit(cache, cond) == FirstHit(cache[c..], cond)
      {
        var entry := cache[c];
        if cond(entry.key) {
          WithoutDistinct(cache, c);
          cache := [entry] + (cache[..c] + cache[c + 1..]);
          return entry;
        }
      }
      return null;
    }

    /** The second part of find(): the successor, then the run of merging predecessors. */
    method SearchTree(r: AddrRange, cond: AddrRange -> bool) returns (it: Node?<V>)
      ensures it == Probe(tree, r, cond)
    {
      var next := UpperBound(tree, r);
      if next != |tree| && cond(tree[next].key) {
        return tree[next];
      }
      if next == 0 {
        return null;
      }
      next := next - 1;
      while true
        invariant 0 <= next < |tree|
        invariant Descend(tree, next + 1, cond) == Probe(tree, r, cond)
        decreases next
      {
        var i := next;
        if cond(tree[i].key) {
          return tree[i];
        }
        if next == 0 {
          break;
        }
        next := next - 1;
        if !tree[next].key.MergesWith(tree[i].key) {
          break;
        }
      }
      return null;
    }

    method Find(r: AddrRange, cond: AddrRange -> bool) returns (it: Node?<V>)
      requires Valid()
      modifies this`cache, this`used
      ensures Valid()
      ensures it == Lookup(old(cache), tree, r, cond)
      ensures it != null ==> cache == Touch<Node<V>>(old(cache), it, maxCacheSize) && used == old(used) + [it]
      ensures it == null ==> cache == old(cache) && used == old(used)
    {
      CacheDistinct();
      it := CheckCache(cond);
      if it != null {
        Record(it, old(cache));
        return;
      }
      it := SearchTree(r, cond);
      if it != null {
        ProbeSound(tree, r, cond);
        AddNewEntryToCache(it);
        Record(it, old(cache));
      }
    }

    /** contains(): the one entry that holds the whole of the query, or null. */
    method Contains(q: AddrRange) returns (it: Node?<V>)
      requires Valid() && Query(q)
      modifies this`cache, this`used
      ensures Valid()
      ensures it != null ==> it in tree && q.IsSubset(it.key)
      ensures forall n :: n in tree && q.IsSubset(n.key) ==> n == it
      ensures it != null ==> cache == Touch<Node<V>>(old(cache), it, maxCacheSize) && used == old(used) + [it]
      ensures it == null ==> cache == old(cache) && used == old(used)
    {
      ContainsIsScan(cache, tree, q);
      it := Find(q, SubsetTest(q));
    }

    /**
     * intersects(): an entry that the test of the ranges takes to intersect the query, or null if there
     * is none; which of several is decided by the cache and the neighbours of the query's place.
     */
    method Intersects(q: AddrRange) returns (it: Node?<V>)
      requires Valid() && Storable(q) && CompatibleWithAll(q, tree)
      modifies this`cache, this`used
      ensures Valid()
      ensures it == Lookup(old(cache), tree, q, IntersectTest(q))
      ensures it != null ==> it in tree && Hits(q, it.key)
      ensures it == null ==> forall n :: n in tree ==> !Hits(q, n.key)
      ensures AllStartRight(tree) ==> forall n :: n in tree ==> (Hits(q, n.key) <==> ShareAddress(q, n.key))
      ensures it != null ==> cache == Touch<Node<V>>(old(cache), it, maxCacheSize) && used == old(used) + [it]
      ensures it == null ==> cache == old(cache) && used == old(used)
    {
      IntersectIsScan(cache, tree, q);
      if AllStartRight(tree) { HitsAreShared(tree, q); }
      it := Find(q, IntersectTest(q));
    }

    /**
     * insert(): refused exactly when intersects() sees some entry, which then counts as used.  An equal
     * key that intersects() does not see keeps its value, and its node is returned.
     */
    method Insert(r: AddrRange, d: V) returns (it: Node?<V>)
      requires Valid() && Storable(r) && CompatibleWithAll(r, tree)
      modifies this`tree, this`cache, this`used
      ensures Valid()
      ensures it == null <==> exists n :: n in old(tree) && Hits(r, n.key)
      ensures old(AllStartRight(tree)) ==> (it == null <==> exists n :: n in old(tree) && ShareAddress(r, n.key))
      ensures it == null ==>
                var other := Lookup(old(cache), old(tree), r, IntersectTest(r));
                tree == old(tree) && other != null && cache == Touch<Node<V>>(old(cache), other, maxCacheSize)
      ensures it != null ==> it.key == r && cache == old(cache) && used == old(used)
      ensures it != null ==> (it in old(tree) <==> exists n :: n in old(tree) && n.key == r)
      ensures it != null && it in old(tree) ==> tree == old(tree)
      ensures it != null && it !in old(tree) ==>
                && fresh(it) && it.value == d && (forall n :: n in old(tree) ==> !ShareAddress(r, n.key))
                && var k := UpperBound(old(tree), r); tree == old(tree)[..k] + [it] + old(tree)[k..]
    {
      var other := Intersects(r);
      if other != null {
        return null;
      }
      it := InsertIntoTree(r, d);
    }

    /** std::map::insert() of a range that intersects() does not see. */
    method InsertIntoTree(r: AddrRange, d: V) returns (it: Node<V>)
      requires Valid() && Storable(r) && CompatibleWithAll(r, tree) && (forall n :: n in tree ==> !Hits(r, n.key))
      modifies this`tree
      ensures Valid() && it.key == r
      ensures it in old(tree) <==> exists n :: n in old(tree) && n.key == r
      ensures it in old(tree) ==> tree == old(tree)
      ensures it !in old(tree) ==>
                && fresh(it) && it.value == d && (forall n :: n in old(tree) ==> !ShareAddress(r, n.key))
                && var k := UpperBound(old(tree), r); tree == old(tree)[..k] + [it] + old(tree)[k..]
    {
      InsertPlace(tree, r);
      var k := UpperBound(tree, r);
      if k > 0 && !tree[k - 1].key.Less(r) {
        return tree[k - 1];
      }
      it := new Node(r, d);
      InsertKeepsValid(tree, it);
      tree := tree[..k] + [it] + tree[k..];
    }

    /** erase() of one entry. */
    method Erase(p: Node<V>)
      requires Valid() && p in tree
      modifies this
      ensures Valid()
      ensures tree == Without(old(tree), p) && cache == Without(old(cache), p) && used == Without(old(used), p)
    {
      var i :| 0 <= i < |tree| && tree[i] == p;
      TreeDistinct();
      WithoutDistinct(tree, i);
      SliceKeepsValid(tree, i, i + 1);
      WithoutPrefix(cache, ByRecency(used), p);
      RecencyWithout(used, p);
      cache := Without(cache, p);
      tree := Without(tree, p);
      used, unbroken := Without(used, p), false;
    }

    lemma TreeDistinct()
      requires ValidTree(tree)
      ensures Distinct(tree)
    {
      forall i, j | 0 <= i < j < |tree| ensures tree[i] != tree[j] { NodesDistinct(tree, i, j); }
    }

    method Clear()
      modifies this
      ensures Valid() && tree == [] && cache == [] && used == [] && unbroken
    {
      cache := [];
      tree := [];
      used, unbroken := [], true;
    }

    /** The loop of the range erase(), which removes p each time round. */
    method RemoveFromCache(p: nat, q: nat)
      requires p <= q <= |tree|
      modifies this`cache
      ensures cache == if p < q then Without(old(cache), tree[p]) else old(cache)
    {
      for it := p to q
        invariant cache == if p < it then Without(old(cache), tree[p]) else old(cache)
      {
        if p < it { WithoutAbsent(cache, tree[p]); }
        cache := Without(cache, tree[p]);
      }
    }

    /**
     * erase() of the entries from position p to q.  A cached entry after p stays behind
     * in the cache, and the cache is then no longer valid.
     */
    method EraseRange(p: nat, q: nat)
      requires Valid() && p <= q <= |tree|
      modifies this
      ensures tree == old(tree)[..p] + old(tree)[q..]
      ensures cache == if p < q then Without(old(cache), old(tree)[p]) else old(cache)
      ensures Valid() <==> OthersUncached(old(tree), old(cache), p, q)
      ensures CacheValid() <==> OthersUncached(old(tree), old(cache), p, q)
    {
      TreeDistinct();
      SliceKeepsValid(tree, p, q);
      RemoveFromCache(p, q);
      used, unbroken := WithoutAll(used, tree[p..q]), false;
      tree := tree[..p] + tree[q..];
      RangeErased(old(tree), old(cache), old(used), p, q, tree, cache);
      assert ValidTree(tree) && |cache| <= maxCacheSize;
      assert CacheValid() <==> OthersUncached(old(tree), old(cache), p, q);
    }

    /** contains() of one address; on the last address the query's end wraps to 0. */
    method ContainsAddress(a: Addr) returns (it: Node?<V>)
      requires Valid()
      modifies this`cache, this`used
      ensures Valid()
      ensures AddressAnswer(old(cache), tree, a, it)
      ensures it != null ==> cache == Touch<Node<V>>(old(cache), it, maxCacheSize) && used == old(used) + [it]
      ensures it == null ==> cache == old(cache) && used == old(used)
    {
      var q := RangeOfAddress(a);
      AddressLookup(cache, tree, a);
      it := Find(q, SubsetTest(q));
    }
  }

  /** None of the entries between the positions p and q is cached, p itself apart. */
  ghost predicate OthersUncached<V>(tree: seq<Node<V>>, cache: seq<Node<V>>, p: nat, q: nat)
    requires p <= q <= |tree|
  {
    forall i :: p < i < q ==> tree[i] !in cache
  }

  /** What erasing the positions p to q does to the cache and the recency list. */
  lemma RangeErased<V>(tree: seq<Node<V>>, cache: seq<Node<V>>, used: seq<Node<V>>, p: nat, q: nat, rest: seq<Node<V>>, left: seq<Node<V>>)
    requires Distinct(tree) && p <= q <= |tree| && cache <= ByRecency(used)
    requires (forall n :: n in cache ==> n in tree) && (forall n :: n in used ==> n in tree)
    requires rest == tree[..p] + tree[q..] && left == if p < q then Without(cache, tree[p]) else cache
    ensures forall n :: n in WithoutAll(used, tree[p..q]) ==> n in rest
    ensures (forall n :: n in left ==> n in rest) <==> OthersUncached(tree, cache, p, q)
    ensures OthersUncached(tree, cache, p, q) ==> left <= ByRecency(WithoutAll(used, tree[p..q]))
  {
    var gone := tree[p..q];
    forall n | n in tree ensures n in rest <==> n !in gone { SplitMember(tree, p, q, n); }
    forall n | n in WithoutAll(used, gone) ensures n in rest { WithoutAllElements(used, gone, n); }
    forall i | p < i < q && tree[i] in cache ensures tree[i] in left && tree[i] !in rest {
      assert tree[i] == gone[i - p];
    }
    if OthersUncached(tree, cache, p, q) {
      forall n | n in gone ensures n !in left {
        var t :| 0 <= t < |gone| && gone[t] == n;
        assert tree[p + t] == n;
      }
      if p < q {
        assert gone[0] == tree[p];
        WithoutAllAbsent(left, gone[1..]);
      }
      WithoutAllPrefix(cache, used, gone);
    }
  }

  lemma SplitMember<T>(s: seq<T>, p: nat, q: nat, x: T)
    requires Distinct(s) && p <= q <= |s| && x in s
    ensures x in s[..p] + s[q..] <==> x !in s[p..q]
  {
    var i :| 0 <= i < |s| && s[i] == x;
    if i < p { assert s[..p][i] == x; }
    if p <= i < q { assert s[p..q][i - p] == x; }
    if q <= i { assert s[q..][i - q] == x; }
  }

  method TwoEntries() returns (m: AddrRangeMap<int>, first: Node<int>, second: Node<int>)
    ensures fresh(m) && m.Valid() && m.maxCacheSize == 2 && m.tree == [first, second] && m.cache == [] && first != second
    ensures first.key == AddrRange(0, 16, [], 0) && second.key == AddrRange(16, 32, [], 0)
  {
    var p, q := AddrRange(0, 16, [], 0), AddrRange(16, 32, [], 0);
    ContiguousStorable(p);
    ContiguousStorable(q);
    m := new AddrRangeMap(2);
    var it := m.Insert(p, 1);
    first := it;
    assert m.tree == [first];
    assert !Hits(q, p);
    it := m.Insert(q, 2);
    second := it;
    assert UpperBound([first], q) == 1;
  }

  /**
   * A stripe of size 1 without its start: inserted again it is not refused, which changes nothing, and
   * the other stripe of its span is refused, although they share no address.
   */
  method RefusedStripe() returns (m: AddrRangeMap<int>, stored: Node?<int>, again: Node?<int>, other: Node?<int>)
    ensures stored != null && stored.key == AddrRange(0, 2, [1], 1) && stored.value == 1
    ensures again == stored && other == null && m.tree == [stored] && !ShareAddress(AddrRange(0, 2, [1], 0), stored.key)
  {
    var q, r := AddrRange(0, 2, [1], 0), AddrRange(0, 2, [1], 1);
    IntersectsInventsAddress();
    m := new AddrRangeMap(1);
    stored := m.Insert(r, 1);
    assert m.tree == [stored];
    assert stored in m.tree;
    again := m.Insert(r, 2);
    other := m.Insert(q, 3);
  }

  /** Two entries that both intersect a query, of which the second is returned. */
  method SecondReturned() returns (m: AddrRangeMap<int>, it: Node?<int>)
    ensures var q := AddrRange(8, 24, [], 0);
            |m.tree| == 2 && it == m.tree[1] && ShareAddress(q, m.tree[0].key) && ShareAddress(q, m.tree[1].key)
  {
    var q := AddrRange(8, 24, [], 0);
    var first, second;
    m, first, second := TwoEntries();
    ContiguousStorable(q);
    assert q.Has(8) && first.key.Has(8) && q.Has(16) && second.key.Has(16);
    assert [first, second][1..] == [second];
    assert UpperBound(m.tree, q) == 1;
    it := m.Intersects(q);
  }

  /** A map with one entry, whose lookup of the last address finds that entry. */
  method LastAddressFound() returns (it: Node?<int>)
    ensures it != null && it.key == AddrRange(0, 16, [], 0) && !it.key.Has(MaxAddr)
  {
    var r := AddrRange(0, 16, [], 0);
    ContiguousStorable(r);
    var m := new AddrRangeMap(1);
    var node := m.Insert(r, 1);
    assert m.tree == [node];
    it := m.ContainsAddress(MaxAddr);
  }

  /** Two entries, both looked up and then erased as a range: the second is left in the cache. */
  method DanglingEntry() returns (m: AddrRangeMap<int>)
    ensures |m.tree| == 0 && |m.cache| == 1 && !m.CacheValid()
  {
    var first, second;
    m, first, second := TwoEntries();
    ContiguousStorable(first.key);
    ContiguousStorable(second.key);
    var it := m.Contains(first.key);
    assert it == first by { assert first in m.tree && first.key.IsSubset(first.key); }
    assert m.cache == [first];
    it := m.Contains(second.key);
    assert it == second by { assert second in m.tree && second.key.IsSubset(second.key); }
    assert m.cache == [second, first] && m.tree[1] in m.cache;
    m.EraseRange(0, 2);
  }

  lemma ContiguousStorable(r: AddrRange)
    requires r.start < r.end && r.masks == [] && r.intlvMatch == 0
    ensures Storable(r) && Query(r)
  {
    assert r.Has(r.start);
  }
}
