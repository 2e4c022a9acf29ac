/**
 * Whole runs of an address-decoding map, for any cache size: every answer is
 * the one that a plain collection of ranges, scanned in full, would give.
 */
module RangeMapRuns {
  import opened AddrRanges
  import opened AddrRangeSets
  import opened RangeTrees
  import opened AddrRangeMaps
  import opened Recency

  datatype Op<V> =
    | InsertOp(r: AddrRange, v: V)
    | ContainsOp(q: AddrRange)
    | AddressOp(a: Addr)
    | IntersectsOp(r: AddrRange)
    | EraseOp(key: AddrRange)
    | ClearOp

  datatype Answer<V> = Refused | Found(key: AddrRange, value: V) | Missing | Done

  /** An answer to a lookup: an entry that meets the condition, or Missing. */
  ghost predicate Finds<V>(m: map<AddrRange, V>, ans: Answer<V>, cond: AddrRange -> bool)
  {
    ans.Missing? || (ans.Found? && ans.key in m && m[ans.key] == ans.value && cond(ans.key))
  }

  ghost predicate Greatest<V>(m: map<AddrRange, V>, key: AddrRange)
  {
    key in m && forall k :: k in m ==> !key.Less(k)
  }

  /** If the stored stripes of size 1 hold their start, intersects() means sharing an address. */
  ghost predicate SharingSeen<V>(m: map<AddrRange, V>, r: AddrRange)
  {
    (forall k :: k in m ==> StartsRight(k)) ==> forall k :: k in m ==> (Hits(r, k) <==> ShareAddress(r, k))
  }

  /** The plain collection: one step from the contents m to m', with its answer. */
  ghost predicate Explains<V>(m: map<AddrRange, V>, op: Op<V>, ans: Answer<V>, m': map<AddrRange, V>)
  {
    match op
    case InsertOp(r, v) =>
      && SharingSeen(m, r)
      && (if exists k :: k in m && Hits(r, k) then ans == Refused && m' == m
          else if r in m then ans == Found(r, m[r]) && m' == m
          else ans == Found(r, v) && m' == m[r := v])
    case ContainsOp(q) =>
      && m' == m
      && (ans.Missing? ==> forall k :: k in m ==> !SubsetTest(q)(k))
      && Finds(m, ans, SubsetTest(q))
    case AddressOp(a) =>
      if a != MaxAddr then
        && m' == m
        && (ans.Missing? ==> forall k :: k in m ==> !k.Has(a))
        && Finds(m, ans, (k: AddrRange) => k.Has(a))
      else
        && m' == m
        && (ans.Missing? ==> forall k :: Greatest(m, k) ==> k.Interleaved())
        && Finds(m, ans, (k: AddrRange) => !k.Interleaved())
    case IntersectsOp(r) =>
      && m' == m && SharingSeen(m, r)
      && (ans.Missing? ==> forall k :: k in m ==> !Hits(r, k))
      && Finds(m, ans, IntersectTest(r))
    case EraseOp(key) => ans == Done && m' == m - {key}
    case ClearOp => ans == Done && m' == map[]
  }

  /** The operations that compare a range with the stored ones by intersects(). */
  predicate Compares<V>(op: Op<V>)
  {
    op.InsertOp? || op.IntersectsOp?
  }

  /**
   * The ranges to insert or to intersect with are storable and compatible with those to insert;
   * the queries are contiguous.
   */
  ghost predicate Allowed<V>(ops: seq<Op<V>>)
  {
    && (forall i :: 0 <= i < |ops| && Compares(ops[i]) ==> Storable(ops[i].r))
    && (forall i :: 0 <= i < |ops| && ops[i].ContainsOp? ==> Query(ops[i].q))
    && (forall i, j :: 0 <= i < |ops| && 0 <= j < |ops| && Compares(ops[i]) && ops[j].InsertOp? ==>
                         Compatible(ops[i].r, ops[j].r))
  }

  ghost predicate Represents<V>(tree: seq<Node<V>>, m: map<AddrRange, V>)
  {
    && (forall n :: n in tree ==> n.key in m && m[n.key] == n.value)
    && (forall k :: k in m ==> exists n :: n in tree && n.key == k)
  }

  lemma InsertRepresents<V>(tree: seq<Node<V>>, m: map<AddrRange, V>, k: nat, n: Node<V>)
    requires Represents(tree, m) && k <= |tree| && n.key !in m
    ensures Represents(tree[..k] + [n] + tree[k..], m[n.key := n.value])
  {
    var t := tree[..k] + [n] + tree[k..];
    assert tree == tree[..k] + tree[k..];
    var m2 := m[n.key := n.value];
    forall x | x in m2 ensures exists y :: y in t && y.key == x {
      if x == n.key {
        assert n in t;
      } else {
        var y :| y in tree && y.key == x;
        assert y in t;
      }
    }
  }

  /** No two nodes have the same key. */
  lemma KeysDistinct<V>(tree: seq<Node<V>>, m: Node<V>, n: Node<V>)
    requires ValidTree(tree) && m in tree && n in tree && m.key == n.key
    ensures m == n
  {
    var i :| 0 <= i < |tree| && tree[i] == m;
    var j :| 0 <= j < |tree| && tree[j] == n;
    assert i < j ==> Before(tree[i].key, tree[j].key);
    assert j < i ==> Before(tree[j].key, tree[i].key);
  }

  lemma EraseRepresents<V>(tree: seq<Node<V>>, m: map<AddrRange, V>, n: Node<V>)
    requires ValidTree(tree) && Represents(tree, m) && n in tree
    ensures Represents(Without(tree, n), m - {n.key})
  {
    var t := Without(tree, n);
    forall y | y in t ensures y.key in m - {n.key} {
      if y.key == n.key { KeysDistinct(tree, y, n); }
    }
    var m2 := m - {n.key};
    forall x | x in m2 ensures exists y :: y in t && y.key == x {
      var y :| y in tree && y.key == x;
      assert y in t;
    }
  }

  /** std::map::find. */
  method FindKey<V>(tree: seq<Node<V>>, key: AddrRange) returns (it: Node?<V>)
    ensures it != null ==> it in tree && it.key == key
    ensures it == null ==> forall n :: n in tree ==> n.key != key
  {
    for i := 0 to |tree|
      invariant forall j :: 0 <= j < i ==> tree[j].key != key
    {
      if tree[i].key == key {
        return tree[i];
      }
    }
    return null;
  }

  ghost predicate Supplied<V>(tree: seq<Node<V>>, ops: seq<Op<V>>)
  {
    forall n :: n in tree ==> exists j :: 0 <= j < |ops| && ops[j].InsertOp? && ops[j].r == n.key
  }

  /** The questions that insert() asks have the same answers for the nodes and for the contents. */
  lemma SameKeys<V>(tree: seq<Node<V>>, m: map<AddrRange, V>, r: AddrRange)
    requires Represents(tree, m)
    ensures (exists n :: n in tree && Hits(r, n.key)) <==> (exists k :: k in m && Hits(r, k))
    ensures (exists n :: n in tree && n.key == r) <==> r in m
  {
    if n :| n in tree && Hits(r, n.key) { assert n.key in m; }
    if k :| k in m && Hits(r, k) {
      var n :| n in tree && n.key == k;
    }
  }

  lemma SharingIsSeen<V>(tree: seq<Node<V>>, m: map<AddrRange, V>, r: AddrRange)
    requires ValidTree(tree) && Represents(tree, m) && Storable(r) && CompatibleWithAll(r, tree)
    ensures SharingSeen(m, r)
  {
    if forall k :: k in m ==> StartsRight(k) {
      HitsAreShared(tree, r);
      forall k | k in m ensures Hits(r, k) <==> ShareAddress(r, k) {
        var n :| n in tree && n.key == k;
      }
    }
  }

  method StepInsert<V>(map': AddrRangeMap<V>, r: AddrRange, v: V, ghost m: map<AddrRange, V>)
    returns (ans: Answer<V>, ghost m': map<AddrRange, V>)
    requires map'.Valid() && Represents(map'.tree, m) && Storable(r) && CompatibleWithAll(r, map'.tree)
    modifies map'
    ensures map'.Valid() && Represents(map'.tree, m') && Explains(m, InsertOp(r, v), ans, m')
    ensures forall n :: n in map'.tree ==> n in old(map'.tree) || n.key == r
  {
    ghost var before := map'.tree;
    SameKeys(before, m, r);
    SharingIsSeen(before, m, r);
    var it := map'.Insert(r, v);
    if it == null {
      ans, m' := Refused, m;
    } else {
      ans, m' := Found(r, it.value), if it in before then m else m[r := v];
      if it !in before { Inserted(before, m, it, map'.tree); }
    }
  }

  lemma Inserted<V>(before: seq<Node<V>>, m: map<AddrRange, V>, n: Node<V>, after: seq<Node<V>>)
    requires Represents(before, m) && n.key !in m
    requires var k := UpperBound(before, n.key); after == before[..k] + [n] + before[k..]
    ensures Represents(after, m[n.key := n.value]) && forall x :: x in after ==> x in before || x == n
  {
    InsertRepresents(before, m, UpperBound(before, n.key), n);
  }

  method StepContains<V>(map': AddrRangeMap<V>, q: AddrRange, ghost m: map<AddrRange, V>) returns (ans: Answer<V>)
    requires map'.Valid() && Represents(map'.tree, m) && Query(q)
    modifies map'
    ensures map'.Valid() && map'.tree == old(map'.tree) && Explains(m, ContainsOp(q), ans, m)
  {
    assert forall i :: 0 <= i < |map'.tree| ==> map'.tree[i].key.HasGranule();
    var it := map'.Contains(q);
    ans := if it == null then Missing else Found(it.key, it.value);
  }

  method StepIntersects<V>(map': AddrRangeMap<V>, r: AddrRange, ghost m: map<AddrRange, V>) returns (ans: Answer<V>)
    requires map'.Valid() && Represents(map'.tree, m) && Storable(r) && CompatibleWithAll(r, map'.tree)
    modifies map'
    ensures map'.Valid() && map'.tree == old(map'.tree) && Explains(m, IntersectsOp(r), ans, m)
  {
    SameKeys(map'.tree, m, r);
    SharingIsSeen(map'.tree, m, r);
    var it := map'.Intersects(r);
    ans := if it == null then Missing else Found(it.key, it.value);
  }

  lemma LastIsAfter<V>(tree: seq<Node<V>>, i: nat)
    requires ValidTree(tree) && i < |tree|
    ensures i == |tree| - 1 || tree[i].key.Less(tree[|tree| - 1].key)
  {
    assert i < |tree| - 1 ==> Before(tree[i].key, tree[|tree| - 1].key);
  }

  /** The last node has the greatest key. */
  lemma LastIsGreatest<V>(tree: seq<Node<V>>, m: map<AddrRange, V>, key: AddrRange)
    requires ValidTree(tree) && Represents(tree, m) && Greatest(m, key)
    ensures |tree| > 0 && tree[|tree| - 1].key == key
  {
    var n :| n in tree && n.key == key;
    var i :| 0 <= i < |tree| && tree[i] == n;
    assert tree[|tree| - 1] in tree;
    LastIsAfter(tree, i);
  }

  lemma AddressExplained<V>(cache: seq<Node<V>>, tree: seq<Node<V>>, m: map<AddrRange, V>, a: Addr, it: Node?<V>)
    requires ValidTree(tree) && Represents(tree, m) && AddressAnswer(cache, tree, a, it)
    ensures Explains(m, AddressOp(a), if it == null then Missing else Found(it.key, it.value), m)
  {
    if it == null {
      if a != MaxAddr {
        forall k | k in m ensures !k.Has(a) {
          var n :| n in tree && n.key == k;
        }
      } else {
        forall k | Greatest(m, k) ensures k.Interleaved() { LastIsGreatest(tree, m, k); }
      }
    }
  }

  method StepAddress<V>(map': AddrRangeMap<V>, a: Addr, ghost m: map<AddrRange, V>) returns (ans: Answer<V>)
    requires map'.Valid() && Represents(map'.tree, m)
    modifies map'
    ensures map'.Valid() && map'.tree == old(map'.tree) && Explains(m, AddressOp(a), ans, m)
  {
    ghost var cache := map'.cache;
    var it := map'.ContainsAddress(a);
    AddressExplained(cache, map'.tree, m, a, it);
    ans := if it == null then Missing else Found(it.key, it.value);
  }

  method StepErase<V>(map': AddrRangeMap<V>, key: AddrRange, ghost m: map<AddrRange, V>)
    requires map'.Valid() && Represents(map'.tree, m)
    modifies map'
    ensures map'.Valid() && Represents(map'.tree, m - {key})
    ensures forall n :: n in map'.tree ==> n in old(map'.tree)
  {
    var it := FindKey(map'.tree, key);
    if it != null {
      EraseRepresents(map'.tree, m, it);
      map'.Erase(it);
    } else {
      assert m - {key} == m;
    }
  }

  /** One operation on the map, explained by the plain collection. */
  method Step<V>(map': AddrRangeMap<V>, op: Op<V>, ghost m: map<AddrRange, V>)
    returns (ans: Answer<V>, ghost m': map<AddrRange, V>)
    requires map'.Valid() && Represents(map'.tree, m) && Ready(map'.tree, op)
    modifies map'
    ensures map'.Valid() && Represents(map'.tree, m') && Explains(m, op, ans, m')
    ensures forall n :: n in map'.tree ==> n in old(map'.tree) || (op.InsertOp? && n.key == op.r)
  {
    match op
    case InsertOp(r, v) =>
      ans, m' := StepInsert(map', r, v, m);
    case ContainsOp(q) =>
      m' := m;
      ans := StepContains(map', q, m);
    case AddressOp(a) =>
      m' := m;
      ans := StepAddress(map', a, m);
    case IntersectsOp(r) =>
      m' := m;
      ans := StepIntersects(map', r, m);
    case EraseOp(key) =>
      StepErase(map', key, m);
      ans, m' := Done, m - {key};
    case ClearOp =>
      map'.Clear();
      ans, m' := Done, map[];
  }

  /** What an operation demands of the ranges it comes with. */
  ghost predicate Ready<V>(tree: seq<Node<V>>, op: Op<V>)
  {
    && (Compares(op) ==> Storable(op.r) && CompatibleWithAll(op.r, tree))
    && (op.ContainsOp? ==> Query(op.q))
  }

  lemma AllowedReady<V>(tree: seq<Node<V>>, ops: seq<Op<V>>, i: nat)
    requires Allowed(ops) && Supplied(tree, ops) && i < |ops|
    ensures Ready(tree, ops[i])
  {
    if Compares(ops[i]) {
      forall k | 0 <= k < |tree| ensures Compatible(ops[i].r, tree[k].key) {
        assert tree[k] in tree;
        var j :| 0 <= j < |ops| && ops[j].InsertOp? && ops[j].r == tree[k].key;
      }
    }
  }

  /** The contents after each operation explain the answers so far. */
  ghost predicate Explained<V>(ops: seq<Op<V>>, answers: seq<Answer<V>>, contents: seq<map<AddrRange, V>>)
  {
    && |answers| <= |ops| && |contents| == |answers| + 1 && contents[0] == map[]
    && forall i :: 0 <= i < |answers| ==> Explains(contents[i], ops[i], answers[i], contents[i + 1])
  }

  /** The map after as many of the operations as there are answers. */
  ghost predicate Running<V>(map': AddrRangeMap<V>, ops: seq<Op<V>>, answers: seq<Answer<V>>, contents: seq<map<AddrRange, V>>)
    reads map'
  {
    && map'.Valid() && Supplied(map'.tree, ops)
    && Explained(ops, answers, contents) && Represents(map'.tree, contents[|answers|])
  }

  method Next<V>(map': AddrRangeMap<V>, ops: seq<Op<V>>, answers: seq<Answer<V>>, ghost contents: seq<map<AddrRange, V>>)
    returns (ans: Answer<V>, ghost m: map<AddrRange, V>)
    requires Allowed(ops) && |answers| < |ops| && Running(map', ops, answers, contents)
    modifies map'
    ensures Running(map', ops, answers + [ans], contents + [m])
  {
    ghost var before := map'.tree;
    AllowedReady(before, ops, |answers|);
    ans, m := Step(map', ops[|answers|], contents[|answers|]);
    SuppliedOn(before, map'.tree, ops, |answers|);
    ExplainedOn(ops, answers, contents, ans, m);
  }

  /** Every run of allowed operations on a new map, with any cache size. */
  method Run<V>(max: nat, ops: seq<Op<V>>)
    returns (answers: seq<Answer<V>>, ghost contents: seq<map<AddrRange, V>>, map': AddrRangeMap<V>)
    requires Allowed(ops)
    ensures fresh(map') && map'.Valid() && map'.maxCacheSize == max
    ensures |answers| == |ops| && Explained(ops, answers, contents) && Represents(map'.tree, contents[|ops|])
  {
    map' := new AddrRangeMap(max);
    answers := [];
    contents := [map[]];
    for i := 0 to |ops|
      invariant fresh(map') && map'.maxCacheSize == max && |answers| == i && Running(map', ops, answers, contents)
    {
      var ans;
      ghost var m;
      ans, m := Next(map', ops, answers, contents);
      answers := answers + [ans];
      contents := contents + [m];
    }
  }

  lemma SuppliedOn<V>(before: seq<Node<V>>, after: seq<Node<V>>, ops: seq<Op<V>>, i: nat)
    requires Supplied(before, ops) && i < |ops|
    requires forall n :: n in after ==> n in before || (ops[i].InsertOp? && n.key == ops[i].r)
    ensures Supplied(after, ops)
  {
  }

  lemma ExplainedOn<V>(ops: seq<Op<V>>, answers: seq<Answer<V>>, contents: seq<map<AddrRange, V>>, ans: Answer<V>, m: map<AddrRange, V>)
    requires Explained(ops, answers, contents) && |answers| < |ops|
    requires Explains(contents[|answers|], ops[|answers|], ans, m)
    ensures Explained(ops, answers + [ans], contents + [m])
  {
    var a, c := answers + [ans], contents + [m];
    forall i | 0 <= i < |a| ensures Explains(c[i], ops[i], a[i], c[i + 1]) {
      if i < |answers| { assert a[i] == answers[i] && c[i] == contents[i] && c[i + 1] == contents[i + 1]; }
    }
  }
}
