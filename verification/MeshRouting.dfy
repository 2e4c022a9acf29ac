/**
 * Routing by link weights in a mesh.  A router forwards a packet on a link that
 * starts a cheapest walk to the destination and, among those, has the lowest
 * weight.  The comments of the mesh builders claim that this is XY routing, or
 * west-first routing, and that it cannot deadlock.
 */
module MeshRouting {
  import opened Meshes

  // ----- walks -----

  ghost predicate IsWalk(links: seq<IntLink>, p: seq<IntLink>, u: nat, v: nat)
  {
    if |p| == 0 then u == v
    else p[0] in links && p[0].src == u && IsWalk(links, p[1..], p[0].dst, v)
  }

  ghost function WalkWeight(p: seq<IntLink>): nat
  {
    if |p| == 0 then 0 else p[0].weight + WalkWeight(p[1..])
  }

  ghost predicate IsCheapest(links: seq<IntLink>, p: seq<IntLink>, u: nat, v: nat)
  {
    IsWalk(links, p, u, v) && forall q :: IsWalk(links, q, u, v) ==> WalkWeight(p) <= WalkWeight(q)
  }

  // ----- the weight of a cheapest walk -----

  /** |dx| + 2|dy| for XY; for west-first, steps to the east cost 2 as well. */
  function Dist(kind: Kind, columns: nat, u: nat, v: nat): nat
    requires columns > 0
  {
    var ux, uy, vx, vy := X(u, columns), Y(u, columns), X(v, columns), Y(v, columns);
    (if vx < ux then ux - vx else if kind == XY then vx - ux else 2 * (vx - ux)) +
    (if vy < uy then 2 * (uy - vy) else 2 * (vy - uy))
  }

  /** No link leads closer than its weight. */
  lemma LinkDist(kind: Kind, rows: nat, columns: nat, l: IntLink, v: nat)
    requires columns > 0 && GoodLink(kind, rows, columns, l)
    ensures Dist(kind, columns, l.src, v) <= l.weight + Dist(kind, columns, l.dst, v)
  {
  }

  lemma {:induction false} WalkDist(kind: Kind, rows: nat, columns: nat, links: seq<IntLink>, base: nat, p: seq<IntLink>, u: nat, v: nat)
    requires columns > 0 && IsMesh(kind, rows, columns, links, base) && IsWalk(links, p, u, v)
    ensures Dist(kind, columns, u, v) <= WalkWeight(p)
  {
    if |p| > 0 {
      WalkDist(kind, rows, columns, links, base, p[1..], p[0].dst, v);
      LinkDist(kind, rows, columns, p[0], v);
    }
  }

  /** The direction of a first step towards v. */
  function Towards(columns: nat, u: nat, v: nat): Dir
    requires columns > 0
  {
    if X(v, columns) < X(u, columns) then West
    else if X(u, columns) < X(v, columns) then East
    else if Y(v, columns) < Y(u, columns) then South
    else North
  }

  function Neighbour(columns: nat, u: nat, d: Dir): nat
    requires columns > 0 && (d.West? ==> X(u, columns) > 0) && (d.South? ==> Y(u, columns) > 0)
  {
    var x, y := X(u, columns), Y(u, columns);
    match d
    case East => RouterAt(x + 1, y, columns)
    case West => RouterAt(x - 1, y, columns)
    case North => RouterAt(x, y + 1, columns)
    case South => RouterAt(x, y - 1, columns)
  }

  lemma SamePlace(u: nat, v: nat, rows: nat, columns: nat)
    requires columns > 0 && u < rows * columns && v < rows * columns
    requires X(u, columns) == X(v, columns) && Y(u, columns) == Y(v, columns)
    ensures u == v
  {
    PositionInMesh(u, rows, columns);
    PositionInMesh(v, rows, columns);
  }

  /** From every router but the destination, some link leads closer by its weight. */
  lemma StepTowards(kind: Kind, rows: nat, columns: nat, links: seq<IntLink>, base: nat, u: nat, v: nat) returns (l: IntLink)
    requires columns > 0 && IsMesh(kind, rows, columns, links, base)
    requires u < rows * columns && v < rows * columns && u != v
    ensures l in links && l.src == u && l.dir == Towards(columns, u, v) && GoodLink(kind, rows, columns, l)
    ensures Dist(kind, columns, u, v) == l.weight + Dist(kind, columns, l.dst, v)
  {
    PositionInMesh(u, rows, columns);
    PositionInMesh(v, rows, columns);
    if X(u, columns) == X(v, columns) && Y(u, columns) == Y(v, columns) { SamePlace(u, v, rows, columns); }
    var d := Towards(columns, u, v);
    var w := Neighbour(columns, u, d);
    NeighbourStep(rows, columns, u, v);
    assert HasLink(links, u, w, d);
    var k :| 0 <= k < |links| && links[k].src == u && links[k].dst == w && links[k].dir == d;
    l := links[k];
  }

  lemma NeighbourStep(rows: nat, columns: nat, u: nat, v: nat)
    requires columns > 0 && u < rows * columns && v < rows * columns
    requires X(u, columns) != X(v, columns) || Y(u, columns) != Y(v, columns)
    ensures Neighbour(columns, u, Towards(columns, u, v)) < rows * columns
    ensures Step(u, Neighbour(columns, u, Towards(columns, u, v)), Towards(columns, u, v), columns)
  {
    PositionInMesh(u, rows, columns);
    PositionInMesh(v, rows, columns);
    var x, y := X(u, columns), Y(u, columns);
    match Towards(columns, u, v)
    case East => Position(x + 1, y, columns); RouterInMesh(x + 1, y, rows, columns);
    case West => Position(x - 1, y, columns); RouterInMesh(x - 1, y, rows, columns);
    case North => Position(x, y + 1, columns); RouterInMesh(x, y + 1, rows, columns);
    case South => Position(x, y - 1, columns); RouterInMesh(x, y - 1, rows, columns);
  }

  lemma {:induction false} CheapWalk(kind: Kind, rows: nat, columns: nat, links: seq<IntLink>, base: nat, u: nat, v: nat) returns (p: seq<IntLink>)
    requires columns > 0 && IsMesh(kind, rows, columns, links, base) && u < rows * columns && v < rows * columns
    ensures IsWalk(links, p, u, v) && WalkWeight(p) == Dist(kind, columns, u, v)
    decreases Dist(kind, columns, u, v)
  {
    if u == v {
      p := [];
    } else {
      var l := StepTowards(kind, rows, columns, links, base, u, v);
      var q := CheapWalk(kind, rows, columns, links, base, l.dst, v);
      p := [l] + q;
      assert p[1..] == q;
    }
  }

  /** The cheapest walk between two routers weighs exactly their distance. */
  lemma CheapestIsDist(kind: Kind, rows: nat, columns: nat, links: seq<IntLink>, base: nat, p: seq<IntLink>, u: nat, v: nat)
    requires columns > 0 && IsMesh(kind, rows, columns, links, base) && u < rows * columns && v < rows * columns
    requires IsWalk(links, p, u, v)
    ensures IsCheapest(links, p, u, v) <==> WalkWeight(p) == Dist(kind, columns, u, v)
  {
    var c := CheapWalk(kind, rows, columns, links, base, u, v);
    forall q | IsWalk(links, q, u, v) ensures Dist(kind, columns, u, v) <= WalkWeight(q) {
      WalkDist(kind, rows, columns, links, base, q, u, v);
    }
  }

  // ----- routing -----

  /** Link l starts a cheapest walk to v. */
  ghost predicate OnCheapest(links: seq<IntLink>, l: IntLink, v: nat)
  {
    exists p :: |p| > 0 && p[0] == l && IsCheapest(links, p, l.src, v)
  }

  /** The router at the start of l may send a packet for v over l. */
  ghost predicate Forwards(links: seq<IntLink>, l: IntLink, v: nat)
  {
    OnCheapest(links, l, v) && forall m: IntLink :: m.src == l.src && OnCheapest(links, m, v) ==> l.weight <= m.weight
  }

  lemma OnCheapestIsDist(kind: Kind, rows: nat, columns: nat, links: seq<IntLink>, base: nat, l: IntLink, v: nat)
    requires columns > 0 && IsMesh(kind, rows, columns, links, base) && v < rows * columns
    ensures OnCheapest(links, l, v) <==>
            l in links && Dist(kind, columns, l.src, v) == l.weight + Dist(kind, columns, l.dst, v)
  {
    if OnCheapest(links, l, v) {
      var p :| |p| > 0 && p[0] == l && IsCheapest(links, p, l.src, v);
      CheapestIsDist(kind, rows, columns, links, base, p, l.src, v);
      WalkDist(kind, rows, columns, links, base, p[1..], l.dst, v);
      LinkDist(kind, rows, columns, l, v);
    }
    if l in links && Dist(kind, columns, l.src, v) == l.weight + Dist(kind, columns, l.dst, v) {
      var q := CheapWalk(kind, rows, columns, links, base, l.dst, v);
      var p := [l] + q;
      assert p[1..] == q;
      CheapestIsDist(kind, rows, columns, links, base, p, l.src, v);
      assert p[0] == l && IsCheapest(links, p, l.src, v);
    }
  }

  /** Weights enforce XY routing: first along the row, then along the column, always towards v. */
  lemma XYRoutes(rows: nat, columns: nat, links: seq<IntLink>, base: nat, l: IntLink, v: nat)
    requires columns > 0 && IsMesh(XY, rows, columns, links, base) && v < rows * columns && Forwards(links, l, v)
    ensures l in links && l.dir == Towards(columns, l.src, v) && l.src != v
  {
    RouteTowards(XY, rows, columns, links, base, l, v);
  }

  /** Weights enforce west-first routing: to the west while v is there, and from then on never again. */
  lemma WestFirstRoutes(rows: nat, columns: nat, links: seq<IntLink>, base: nat, l: IntLink, v: nat)
    requires columns > 0 && IsMesh(WestFirst, rows, columns, links, base) && v < rows * columns && Forwards(links, l, v)
    ensures l in links && l.src != v && (l.dir == West <==> X(v, columns) < X(l.src, columns))
  {
    RouteTowards(WestFirst, rows, columns, links, base, l, v);
  }

  /** What both rules have in common, in terms of coordinates. */
  lemma RouteTowards(kind: Kind, rows: nat, columns: nat, links: seq<IntLink>, base: nat, l: IntLink, v: nat)
    requires columns > 0 && IsMesh(kind, rows, columns, links, base) && v < rows * columns && Forwards(links, l, v)
    ensures l in links && l.src != v && GoodLink(kind, rows, columns, l)
    ensures Dist(kind, columns, l.src, v) == l.weight + Dist(kind, columns, l.dst, v)
    ensures l.weight <= LinkWeight(kind, Towards(columns, l.src, v))
  {
    OnCheapestIsDist(kind, rows, columns, links, base, l, v);
    var m := StepTowards(kind, rows, columns, links, base, l.src, v);
    OnCheapestIsDist(kind, rows, columns, links, base, m, v);
  }

  /** Some link is always allowed. */
  lemma RouteExists(kind: Kind, rows: nat, columns: nat, links: seq<IntLink>, base: nat, u: nat, v: nat) returns (l: IntLink)
    requires columns > 0 && IsMesh(kind, rows, columns, links, base) && u < rows * columns && v < rows * columns && u != v
    ensures l.src == u && Forwards(links, l, v)
  {
    l := StepTowards(kind, rows, columns, links, base, u, v);
    OnCheapestIsDist(kind, rows, columns, links, base, l, v);
    forall m: IntLink | m.src == l.src && OnCheapest(links, m, v) ensures l.weight <= m.weight {
      OnCheapestIsDist(kind, rows, columns, links, base, m, v);
    }
  }

  ghost predicate Routed(links: seq<IntLink>, p: seq<IntLink>, v: nat)
  {
    forall i :: 0 <= i < |p| ==> Forwards(links, p[i], v)
  }

  /** Every walk that follows the rule spends exactly the distance it gains, so it ends at v in at most Dist steps. */
  lemma {:induction false} RoutedProgress(kind: Kind, rows: nat, columns: nat, links: seq<IntLink>, base: nat, p: seq<IntLink>, u: nat, w: nat, v: nat)
    requires columns > 0 && IsMesh(kind, rows, columns, links, base) && v < rows * columns
    requires IsWalk(links, p, u, w) && Routed(links, p, v)
    ensures Dist(kind, columns, u, v) == WalkWeight(p) + Dist(kind, columns, w, v)
    ensures |p| <= WalkWeight(p)
  {
    if |p| > 0 {
      RouteTowards(kind, rows, columns, links, base, p[0], v);
      RoutedProgress(kind, rows, columns, links, base, p[1..], p[0].dst, w, v);
    }
  }

  // ----- deadlock freedom -----

  /** A packet may hold link l while it waits for link m. */
  ghost predicate Depends(rows: nat, columns: nat, links: seq<IntLink>, l: IntLink, m: IntLink)
  {
    l.dst == m.src && exists v: nat :: v < rows * columns && Forwards(links, l, v) && Forwards(links, m, v)
  }

  /** A number that grows along every dependency. */
  function Rank(kind: Kind, rows: nat, columns: nat, l: IntLink): int
    requires columns > 0
  {
    var x, y := X(l.src, columns), Y(l.src, columns);
    match kind
    case XY =>
      (match l.dir
       case East => x
       case West => columns - x
       case North => columns + y
       case South => columns + rows - y)
    case WestFirst =>
      (match l.dir
       case East => 2 * (x * rows) + rows
       case West => 0 - x
       case North => 2 * (x * rows) + y
       case South => 2 * (x * rows) + rows - y)
  }

  /** Link l leads from its router towards v at the lowest weight that its rule allows. */
  predicate Leads(kind: Kind, rows: nat, columns: nat, l: IntLink, v: nat)
    requires columns > 0
  {
    && Y(l.src, columns) < rows && Y(l.dst, columns) < rows && X(l.src, columns) < columns
    && Step(l.src, l.dst, l.dir, columns) && l.weight == LinkWeight(kind, l.dir)
    && Dist(kind, columns, l.src, v) == l.weight + Dist(kind, columns, l.dst, v)
    && l.weight <= LinkWeight(kind, Towards(columns, l.src, v))
  }

  lemma ForwardsLeads(kind: Kind, rows: nat, columns: nat, links: seq<IntLink>, base: nat, l: IntLink, v: nat)
    requires columns > 0 && IsMesh(kind, rows, columns, links, base) && v < rows * columns && Forwards(links, l, v)
    ensures Leads(kind, rows, columns, l, v)
  {
    RouteTowards(kind, rows, columns, links, base, l, v);
    PositionInMesh(l.src, rows, columns);
    PositionInMesh(l.dst, rows, columns);
  }

  lemma RankGrowsXY(rows: nat, columns: nat, l: IntLink, m: IntLink, v: nat)
    requires columns > 0 && Leads(XY, rows, columns, l, v) && Leads(XY, rows, columns, m, v) && l.dst == m.src
    ensures Rank(XY, rows, columns, l) < Rank(XY, rows, columns, m)
  {
  }

  lemma RankGrowsWestFirst(rows: nat, columns: nat, l: IntLink, m: IntLink, v: nat)
    requires columns > 0 && Leads(WestFirst, rows, columns, l, v) && Leads(WestFirst, rows, columns, m, v) && l.dst == m.src
    ensures Rank(WestFirst, rows, columns, l) < Rank(WestFirst, rows, columns, m)
  {
    if l.dir == East { RankGrowsEast(rows, columns, l, m, v); }
  }

  lemma RankGrowsEast(rows: nat, columns: nat, l: IntLink, m: IntLink, v: nat)
    requires columns > 0 && Leads(WestFirst, rows, columns, l, v) && Leads(WestFirst, rows, columns, m, v) && l.dst == m.src
    requires l.dir == East
    ensures Rank(WestFirst, rows, columns, l) < Rank(WestFirst, rows, columns, m)
  {
    var x := X(l.src, columns);
    assert (x + 1) * rows == x * rows + rows;
  }

  lemma RankGrows(kind: Kind, rows: nat, columns: nat, links: seq<IntLink>, base: nat, l: IntLink, m: IntLink)
    requires columns > 0 && IsMesh(kind, rows, columns, links, base) && Depends(rows, columns, links, l, m)
    ensures Rank(kind, rows, columns, l) < Rank(kind, rows, columns, m)
  {
    var v: nat :| v < rows * columns && Forwards(links, l, v) && Forwards(links, m, v);
    ForwardsLeads(kind, rows, columns, links, base, l, v);
    ForwardsLeads(kind, rows, columns, links, base, m, v);
    if kind == XY { RankGrowsXY(rows, columns, l, m, v); } else { RankGrowsWestFirst(rows, columns, l, m, v); }
  }

  ghost predicate DependencyPath(rows: nat, columns: nat, links: seq<IntLink>, p: seq<IntLink>)
  {
    forall i :: 0 <= i && i + 1 < |p| ==> Depends(rows, columns, links, p[i], p[i + 1])
  }

  /** The links of every walk that follows the rule depend on each other in turn. */
  lemma {:induction false} RoutedDepends(rows: nat, columns: nat, links: seq<IntLink>, p: seq<IntLink>, u: nat, w: nat, v: nat)
    requires v < rows * columns && IsWalk(links, p, u, w) && Routed(links, p, v)
    ensures DependencyPath(rows, columns, links, p)
    decreases |p|
  {
    if |p| > 1 {
      RoutedDepends(rows, columns, links, p[1..], p[0].dst, w, v);
      assert Depends(rows, columns, links, p[0], p[1]);
      forall i | 0 <= i && i + 1 < |p| ensures Depends(rows, columns, links, p[i], p[i + 1]) {
        if i > 0 { assert p[1..][i - 1] == p[i] && p[1..][i] == p[i + 1]; }
      }
    }
  }

  lemma {:induction false} RankGrowsAlong(kind: Kind, rows: nat, columns: nat, links: seq<IntLink>, base: nat, p: seq<IntLink>)
    requires columns > 0 && IsMesh(kind, rows, columns, links, base) && DependencyPath(rows, columns, links, p) && |p| > 1
    ensures Rank(kind, rows, columns, p[0]) < Rank(kind, rows, columns, p[|p| - 1])
  {
    var n := |p| - 1;
    assert Depends(rows, columns, links, p[n - 1], p[n]);
    RankGrows(kind, rows, columns, links, base, p[n - 1], p[n]);
    if n > 1 {
      var q := p[..n];
      forall i | 0 <= i && i + 1 < |q| ensures Depends(rows, columns, links, q[i], q[i + 1]) {
        assert q[i] == p[i] && q[i + 1] == p[i + 1];
      }
      RankGrowsAlong(kind, rows, columns, links, base, q);
    }
  }

  /** The channel-dependency graph has no cycle, for either rule and every size of the mesh. */
  lemma NoDeadlock(kind: Kind, rows: nat, columns: nat, links: seq<IntLink>, base: nat, p: seq<IntLink>)
    requires columns > 0 && IsMesh(kind, rows, columns, links, base) && DependencyPath(rows, columns, links, p) && |p| > 1
    ensures p[0] != p[|p| - 1]
  {
    RankGrowsAlong(kind, rows, columns, links, base, p);
  }
}
