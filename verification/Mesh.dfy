/**
 * The mesh builders topologies/Mesh_XY.py and topologies/Mesh_westfirst.py: the
 * same loops with different link weights.
 */
module Meshes {

  datatype Kind = XY | WestFirst

  datatype Dir = East | West | North | South

  /** The weight of a link that leaves its router in direction d. */
  function LinkWeight(kind: Kind, d: Dir): nat
  {
    match d
    case East => if kind == XY then 1 else 2
    case West => 1
    case North => 2
    case South => 2
  }

  /** A link between routers; dir is the output port, and the input port is opposite. */
  datatype IntLink = IntLink(id: nat, src: nat, dst: nat, dir: Dir, weight: nat)

  datatype Controller = Controller(name: string, dma: bool)

  datatype ExtLink = ExtLink(id: nat, node: Controller, router: nat)

  datatype Network = Network(numRouters: nat, extLinks: seq<ExtLink>, intLinks: seq<IntLink>)

  /** A failed assertion or a division by zero ends the construction. */
  datatype Result<T> = Built(value: T) | Failed

  // ----- routers as positions -----

  /** The column of router u. */
  function X(u: nat, columns: nat): nat
    requires columns > 0
  {
    u % columns
  }

  /** The row of router u. */
  function Y(u: nat, columns: nat): nat
    requires columns > 0
  {
    u / columns
  }

  function RouterAt(col: nat, row: nat, columns: nat): nat
  {
    col + row * columns
  }

  lemma Position(col: nat, row: nat, columns: nat)
    requires col < columns
    ensures X(RouterAt(col, row, columns), columns) == col && Y(RouterAt(col, row, columns), columns) == row
  {
    var u := RouterAt(col, row, columns);
    assert u == (u / columns) * columns + u % columns;
    var k := u / columns - row;
    assert k * columns == col - u % columns;
    assert k != 0 ==> k * columns >= columns || k * columns + columns <= 0;
  }

  lemma RouterInMesh(col: nat, row: nat, rows: nat, columns: nat)
    requires col < columns && row < rows
    ensures RouterAt(col, row, columns) < rows * columns
  {
    assert (row + 1) * columns <= rows * columns;
  }

  lemma PositionInMesh(u: nat, rows: nat, columns: nat)
    requires columns > 0 && u < rows * columns
    ensures Y(u, columns) < rows && u == RouterAt(X(u, columns), Y(u, columns), columns)
  {
    assert u == (u / columns) * columns + u % columns;
    Cancel(u / columns, rows, columns);
  }

  lemma Cancel(a: nat, b: nat, c: nat)
    requires a * c < b * c
    ensures a < b
  {
    assert a >= b ==> a * c >= b * c;
  }

  // ----- one sweep over the mesh -----

  /** The bounds of the outer and of the inner loop that make the links of direction d. */
  function Outer(d: Dir, rows: nat, columns: nat): nat
  {
    if d.East? || d.West? then rows else columns
  }

  function Inner(d: Dir, rows: nat, columns: nat): nat
  {
    if d.East? || d.West? then columns else rows
  }

  /** The link of direction d that the loops make at (outer, inner). */
  function MakeLink(kind: Kind, d: Dir, columns: nat, outer: nat, inner: nat, id: nat): IntLink
  {
    match d
    case East => IntLink(id, RouterAt(inner, outer, columns), RouterAt(inner + 1, outer, columns), d, LinkWeight(kind, d))
    case West => IntLink(id, RouterAt(inner + 1, outer, columns), RouterAt(inner, outer, columns), d, LinkWeight(kind, d))
    case North => IntLink(id, RouterAt(outer, inner, columns), RouterAt(outer, inner + 1, columns), d, LinkWeight(kind, d))
    case South => IntLink(id, RouterAt(outer, inner + 1, columns), RouterAt(outer, inner, columns), d, LinkWeight(kind, d))
  }

  /** The links that one pass of the inner loop makes in its first n iterations. */
  function Row(kind: Kind, d: Dir, columns: nat, outer: nat, n: nat, base: nat): (r: seq<IntLink>)
    ensures |r| == n
  {
    seq(n, i requires 0 <= i => MakeLink(kind, d, columns, outer, i, base + i))
  }

  /** The links that the first o passes of the outer loop make; each inner loop makes one link less than it has iterations. */
  function Sweep(kind: Kind, d: Dir, columns: nat, inner: nat, o: nat, base: nat): (r: seq<IntLink>)
    requires inner > 0
    ensures |r| == o * (inner - 1)
  {
    if o == 0 then []
    else
      var done := Sweep(kind, d, columns, inner, o - 1, base);
      done + Row(kind, d, columns, o - 1, inner - 1, base + |done|)
  }

  /** All links of one direction. */
  function DirLinks(kind: Kind, d: Dir, rows: nat, columns: nat, base: nat): (r: seq<IntLink>)
    requires rows > 0 && columns > 0
    ensures |r| == if d.East? || d.West? then rows * (columns - 1) else columns * (rows - 1)
  {
    Sweep(kind, d, columns, Inner(d, rows, columns), Outer(d, rows, columns), base)
  }

  method AddLinks(kind: Kind, d: Dir, rows: nat, columns: nat, links: seq<IntLink>, linkCount: nat)
    returns (links': seq<IntLink>, linkCount': nat)
    requires rows > 0 && columns > 0
    ensures links' == links + DirLinks(kind, d, rows, columns, linkCount)
    ensures linkCount' == linkCount + |DirLinks(kind, d, rows, columns, linkCount)|
  {
    links', linkCount' := links, linkCount;
    var inner := Inner(d, rows, columns);
    for o := 0 to Outer(d, rows, columns)
      invariant links' == links + Sweep(kind, d, columns, inner, o, linkCount)
      invariant linkCount' == linkCount + |links'| - |links|
    {
      links', linkCount' := AddRow(kind, d, columns, o, inner, links', linkCount');
    }
  }

  /** The inner loop, over the routers of one row or column. */
  method AddRow(kind: Kind, d: Dir, columns: nat, o: nat, inner: nat, links: seq<IntLink>, linkCount: nat)
    returns (links': seq<IntLink>, linkCount': nat)
    requires inner > 0
    ensures links' == links + Row(kind, d, columns, o, inner - 1, linkCount)
    ensures linkCount' == linkCount + inner - 1
  {
    links', linkCount' := links, linkCount;
    for i := 0 to inner
      invariant links' == links + Row(kind, d, columns, o, if i < inner then i else inner - 1, linkCount)
      invariant linkCount' == linkCount + |links'| - |links|
    {
      if i + 1 < inner {
        links' := links' + [MakeLink(kind, d, columns, o, i, linkCount')];
        linkCount' := linkCount' + 1;
      }
    }
  }

  // ----- what a sweep makes -----

  lemma {:induction false} SweepAt(kind: Kind, d: Dir, columns: nat, inner: nat, o: nat, base: nat, k: nat) returns (p: nat, q: nat)
    requires inner > 0 && k < |Sweep(kind, d, columns, inner, o, base)|
    ensures p < o && q + 1 < inner && k == p * (inner - 1) + q
    ensures Sweep(kind, d, columns, inner, o, base)[k] == MakeLink(kind, d, columns, p, q, base + k)
  {
    if o > 0 {
      var done := Sweep(kind, d, columns, inner, o - 1, base);
      if k < |done| {
        p, q := SweepAt(kind, d, columns, inner, o - 1, base, k);
      } else {
        p, q := o - 1, k - |done|;
      }
    }
  }

  lemma {:induction false} SweepHas(kind: Kind, d: Dir, columns: nat, inner: nat, o: nat, base: nat, p: nat, q: nat) returns (k: nat)
    requires p < o && q + 1 < inner
    ensures k < |Sweep(kind, d, columns, inner, o, base)|
    ensures Sweep(kind, d, columns, inner, o, base)[k] == MakeLink(kind, d, columns, p, q, base + k)
  {
    var done := Sweep(kind, d, columns, inner, o - 1, base);
    if p < o - 1 {
      k := SweepHas(kind, d, columns, inner, o - 1, base, p, q);
    } else {
      k := |done| + q;
      assert Row(kind, d, columns, o - 1, inner - 1, base + |done|)[q] == MakeLink(kind, d, columns, p, q, base + k);
    }
  }

  /** Loops at different positions start their links at different routers. */
  lemma MakeLinkInjective(kind: Kind, d: Dir, rows: nat, columns: nat, p: nat, q: nat, p': nat, q': nat)
    requires p < Outer(d, rows, columns) && p' < Outer(d, rows, columns)
    requires q + 1 < Inner(d, rows, columns) && q' + 1 < Inner(d, rows, columns)
    requires MakeLink(kind, d, columns, p, q, 0).src == MakeLink(kind, d, columns, p', q', 0).src
    ensures p == p' && q == q'
  {
    match d
    case East => Position(q, p, columns); Position(q', p', columns);
    case West => Position(q + 1, p, columns); Position(q' + 1, p', columns);
    case North => Position(p, q, columns); Position(p', q', columns);
    case South => Position(p, q + 1, columns); Position(p', q' + 1, columns);
  }

  lemma SweepDistinct(kind: Kind, d: Dir, rows: nat, columns: nat, base: nat, k: nat, m: nat)
    requires rows > 0 && columns > 0
    requires k < m < |DirLinks(kind, d, rows, columns, base)|
    ensures DirLinks(kind, d, rows, columns, base)[k].src != DirLinks(kind, d, rows, columns, base)[m].src
  {
    var s := DirLinks(kind, d, rows, columns, base);
    var inner, outer := Inner(d, rows, columns), Outer(d, rows, columns);
    var p, q := SweepAt(kind, d, columns, inner, outer, base, k);
    var p', q' := SweepAt(kind, d, columns, inner, outer, base, m);
    if s[k].src == s[m].src { MakeLinkInjective(kind, d, rows, columns, p, q, p', q'); }
  }

  // ----- the whole mesh -----

  /** Router v is the neighbour of router u in direction d. */
  predicate Step(u: nat, v: nat, d: Dir, columns: nat)
    requires columns > 0
  {
    match d
    case East => X(v, columns) == X(u, columns) + 1 && Y(v, columns) == Y(u, columns)
    case West => X(v, columns) + 1 == X(u, columns) && Y(v, columns) == Y(u, columns)
    case North => X(v, columns) == X(u, columns) && Y(v, columns) == Y(u, columns) + 1
    case South => X(v, columns) == X(u, columns) && Y(v, columns) + 1 == Y(u, columns)
  }

  /** l joins two routers of the mesh that are neighbours in its direction, with the weight of that direction. */
  ghost predicate GoodLink(kind: Kind, rows: nat, columns: nat, l: IntLink)
    requires columns > 0
  {
    l.src < rows * columns && l.dst < rows * columns && Step(l.src, l.dst, l.dir, columns) && l.weight == LinkWeight(kind, l.dir)
  }

  ghost predicate HasLink(links: seq<IntLink>, u: nat, v: nat, d: Dir)
  {
    exists k :: 0 <= k < |links| && links[k].src == u && links[k].dst == v && links[k].dir == d
  }

  /** The links are those between neighbours, one for each ordered pair, and numbered from base. */
  ghost predicate IsMesh(kind: Kind, rows: nat, columns: nat, links: seq<IntLink>, base: nat)
    requires columns > 0
  {
    && (forall k :: 0 <= k < |links| ==> GoodLink(kind, rows, columns, links[k]) && links[k].id == base + k)
    && (forall u: nat, v: nat, d: Dir :: u < rows * columns && v < rows * columns && Step(u, v, d, columns) ==> HasLink(links, u, v, d))
    && (forall k, m :: 0 <= k < m < |links| ==> links[k].src != links[m].src || links[k].dst != links[m].dst)
  }

  lemma MakeLinkGood(kind: Kind, d: Dir, rows: nat, columns: nat, p: nat, q: nat, id: nat)
    requires columns > 0 && p < Outer(d, rows, columns) && q + 1 < Inner(d, rows, columns)
    ensures GoodLink(kind, rows, columns, MakeLink(kind, d, columns, p, q, id))
  {
    if d.East? || d.West? {
      Position(q, p, columns);
      Position(q + 1, p, columns);
      RouterInMesh(q, p, rows, columns);
      RouterInMesh(q + 1, p, rows, columns);
    } else {
      Position(p, q, columns);
      Position(p, q + 1, columns);
      RouterInMesh(p, q, rows, columns);
      RouterInMesh(p, q + 1, rows, columns);
    }
  }

  lemma DirLinksGood(kind: Kind, d: Dir, rows: nat, columns: nat, base: nat, k: nat)
    requires rows > 0 && columns > 0 && k < |DirLinks(kind, d, rows, columns, base)|
    ensures var l := DirLinks(kind, d, rows, columns, base)[k];
            GoodLink(kind, rows, columns, l) && l.id == base + k && l.dir == d
  {
    var p, q := SweepAt(kind, d, columns, Inner(d, rows, columns), Outer(d, rows, columns), base, k);
    MakeLinkGood(kind, d, rows, columns, p, q, base + k);
  }

  lemma DirLinksComplete(kind: Kind, d: Dir, rows: nat, columns: nat, base: nat, u: nat, v: nat)
    requires rows > 0 && columns > 0 && u < rows * columns && v < rows * columns && Step(u, v, d, columns)
    ensures HasLink(DirLinks(kind, d, rows, columns, base), u, v, d)
  {
    PositionInMesh(u, rows, columns);
    PositionInMesh(v, rows, columns);
    var low := if d.East? || d.North? then u else v;
    var p, q := if d.East? || d.West? then Y(low, columns) else X(low, columns), if d.East? || d.West? then X(low, columns) else Y(low, columns);
    var k := SweepHas(kind, d, columns, Inner(d, rows, columns), Outer(d, rows, columns), base, p, q);
    var l := DirLinks(kind, d, rows, columns, base)[k];
    assert l.src == u && l.dst == v && l.dir == d;
  }

  /** The number of links made before those of direction d. */
  function LinksBefore(d: Dir, rows: nat, columns: nat): nat
    requires rows > 0 && columns > 0
  {
    match d
    case East => 0
    case West => rows * (columns - 1)
    case North => 2 * (rows * (columns - 1))
    case South => 2 * (rows * (columns - 1)) + columns * (rows - 1)
  }

  function AllLinks(kind: Kind, rows: nat, columns: nat, base: nat): (r: seq<IntLink>)
    requires rows > 0 && columns > 0
    ensures |r| == 2 * (rows * (columns - 1)) + 2 * (columns * (rows - 1))
  {
    DirLinks(kind, East, rows, columns, base + LinksBefore(East, rows, columns)) +
    DirLinks(kind, West, rows, columns, base + LinksBefore(West, rows, columns)) +
    DirLinks(kind, North, rows, columns, base + LinksBefore(North, rows, columns)) +
    DirLinks(kind, South, rows, columns, base + LinksBefore(South, rows, columns))
  }

  lemma AllLinksAt(kind: Kind, rows: nat, columns: nat, base: nat, d: Dir, i: nat)
    requires rows > 0 && columns > 0 && i < |DirLinks(kind, d, rows, columns, base + LinksBefore(d, rows, columns))|
    ensures LinksBefore(d, rows, columns) + i < |AllLinks(kind, rows, columns, base)|
    ensures AllLinks(kind, rows, columns, base)[LinksBefore(d, rows, columns) + i] ==
            DirLinks(kind, d, rows, columns, base + LinksBefore(d, rows, columns))[i]
  {
  }

  lemma Segment(kind: Kind, rows: nat, columns: nat, base: nat, k: nat) returns (d: Dir, i: nat)
    requires rows > 0 && columns > 0 && k < |AllLinks(kind, rows, columns, base)|
    ensures k == LinksBefore(d, rows, columns) + i && i < |DirLinks(kind, d, rows, columns, base + LinksBefore(d, rows, columns))|
  {
    d := if k < LinksBefore(West, rows, columns) then East
         else if k < LinksBefore(North, rows, columns) then West
         else if k < LinksBefore(South, rows, columns) then North
         else South;
    i := k - LinksBefore(d, rows, columns);
  }

  lemma AllLinksGood(kind: Kind, rows: nat, columns: nat, base: nat, k: nat)
    requires rows > 0 && columns > 0 && k < |AllLinks(kind, rows, columns, base)|
    ensures GoodLink(kind, rows, columns, AllLinks(kind, rows, columns, base)[k])
    ensures AllLinks(kind, rows, columns, base)[k].id == base + k
  {
    var d, i := Segment(kind, rows, columns, base, k);
    AllLinksAt(kind, rows, columns, base, d, i);
    DirLinksGood(kind, d, rows, columns, base + LinksBefore(d, rows, columns), i);
  }

  lemma AllLinksDistinct(kind: Kind, rows: nat, columns: nat, base: nat, k: nat, m: nat)
    requires rows > 0 && columns > 0 && k < m < |AllLinks(kind, rows, columns, base)|
    ensures var s := AllLinks(kind, rows, columns, base); s[k].src != s[m].src || s[k].dst != s[m].dst
  {
    var d, i := LinkAt(kind, rows, columns, base, k);
    var e, j := LinkAt(kind, rows, columns, base, m);
    if d == e { SweepDistinct(kind, d, rows, columns, base + LinksBefore(d, rows, columns), i, j); }
  }

  /** The direction and the place within the links of that direction of link k. */
  lemma LinkAt(kind: Kind, rows: nat, columns: nat, base: nat, k: nat) returns (d: Dir, i: nat)
    requires rows > 0 && columns > 0 && k < |AllLinks(kind, rows, columns, base)|
    ensures k == LinksBefore(d, rows, columns) + i && i < |DirLinks(kind, d, rows, columns, base + LinksBefore(d, rows, columns))|
    ensures var l := AllLinks(kind, rows, columns, base)[k];
            l == DirLinks(kind, d, rows, columns, base + LinksBefore(d, rows, columns))[i] && l.dir == d && Step(l.src, l.dst, d, columns)
  {
    d, i := Segment(kind, rows, columns, base, k);
    AllLinksAt(kind, rows, columns, base, d, i);
    DirLinksGood(kind, d, rows, columns, base + LinksBefore(d, rows, columns), i);
  }

  function DirRank(d: Dir): nat
  {
    match d
    case East => 0
    case West => 1
    case North => 2
    case South => 3
  }

  /** l is made before m: the directions one after the other, along the rows for east and west, along the columns for north and south. */
  predicate Precedes(columns: nat, l: IntLink, m: IntLink)
    requires columns > 0
  {
    var x, y, x', y' := X(l.src, columns), Y(l.src, columns), X(m.src, columns), Y(m.src, columns);
    || DirRank(l.dir) < DirRank(m.dir)
    || (l.dir == m.dir && if l.dir.East? || l.dir.West? then y < y' || (y == y' && x < x') else x < x' || (x == x' && y < y'))
  }

  lemma AllLinksOrder(kind: Kind, rows: nat, columns: nat, base: nat, k: nat, m: nat)
    requires rows > 0 && columns > 0 && k < m < |AllLinks(kind, rows, columns, base)|
    ensures Precedes(columns, AllLinks(kind, rows, columns, base)[k], AllLinks(kind, rows, columns, base)[m])
  {
    var d, i := LinkAt(kind, rows, columns, base, k);
    var e, j := LinkAt(kind, rows, columns, base, m);
    if d == e {
      SweepOrder(kind, d, rows, columns, base + LinksBefore(d, rows, columns), i, j);
    } else {
      SegmentOrder(d, i, e, j, rows, columns, rows * (columns - 1), columns * (rows - 1));
    }
  }

  lemma SweepOrder(kind: Kind, d: Dir, rows: nat, columns: nat, base: nat, i: nat, j: nat)
    requires rows > 0 && columns > 0 && i < j < |DirLinks(kind, d, rows, columns, base)|
    ensures Precedes(columns, DirLinks(kind, d, rows, columns, base)[i], DirLinks(kind, d, rows, columns, base)[j])
  {
    var inner, outer := Inner(d, rows, columns), Outer(d, rows, columns);
    var p, q := SweepAt(kind, d, columns, inner, outer, base, i);
    var p', q' := SweepAt(kind, d, columns, inner, outer, base, j);
    InOrder(p, q, p', q', inner - 1);
    match d
    case East => Position(q, p, columns); Position(q', p', columns);
    case West => Position(q + 1, p, columns); Position(q' + 1, p', columns);
    case North => Position(p, q, columns); Position(p', q', columns);
    case South => Position(p, q + 1, columns); Position(p', q' + 1, columns);
  }

  lemma InOrder(p: nat, q: nat, p': nat, q': nat, n: nat)
    requires p * n + q < p' * n + q' && q < n && q' < n
    ensures p < p' || (p == p' && q < q')
  {
    if p > p' { ProductGap(p', p, n); }
  }

  lemma ProductGap(x: nat, y: nat, n: nat)
    requires x < y
    ensures x * n + n <= y * n
  {
    TimesMono(n, x + 1, y);
    assert n * y == y * n && n * (x + 1) == x * n + n;
  }

  /** The links of one direction all come before those of the next. */
  lemma SegmentOrder(d: Dir, i: nat, e: Dir, j: nat, rows: nat, columns: nat, a: nat, b: nat)
    requires rows > 0 && columns > 0 && a == rows * (columns - 1) && b == columns * (rows - 1)
    requires i < (if d.East? || d.West? then a else b) && j < (if e.East? || e.West? then a else b)
    requires LinksBefore(d, rows, columns) + i < LinksBefore(e, rows, columns) + j && d != e
    ensures DirRank(d) < DirRank(e)
  {
  }

  lemma AllLinksComplete(kind: Kind, rows: nat, columns: nat, base: nat, u: nat, v: nat, d: Dir)
    requires rows > 0 && columns > 0 && u < rows * columns && v < rows * columns && Step(u, v, d, columns)
    ensures HasLink(AllLinks(kind, rows, columns, base), u, v, d)
  {
    var part := DirLinks(kind, d, rows, columns, base + LinksBefore(d, rows, columns));
    DirLinksComplete(kind, d, rows, columns, base + LinksBefore(d, rows, columns), u, v);
    var i :| 0 <= i < |part| && part[i].src == u && part[i].dst == v && part[i].dir == d;
    AllLinksAt(kind, rows, columns, base, d, i);
  }

  /** The loops make exactly one link for each ordered pair of neighbours, and number the links without gaps. */
  lemma AllLinksMesh(kind: Kind, rows: nat, columns: nat, base: nat)
    requires rows > 0 && columns > 0
    ensures IsMesh(kind, rows, columns, AllLinks(kind, rows, columns, base), base)
  {
    var s := AllLinks(kind, rows, columns, base);
    forall k | 0 <= k < |s| ensures GoodLink(kind, rows, columns, s[k]) && s[k].id == base + k { AllLinksGood(kind, rows, columns, base, k); }
    forall u: nat, v: nat, d: Dir | u < rows * columns && v < rows * columns && Step(u, v, d, columns) ensures HasLink(s, u, v, d) {
      AllLinksComplete(kind, rows, columns, base, u, v, d);
    }
    forall k, m | 0 <= k < m < |s| ensures s[k].src != s[m].src || s[k].dst != s[m].dst { AllLinksDistinct(kind, rows, columns, base, k, m); }
  }

  // ----- makeTopology -----

  /** The number of controllers that cannot be dealt out evenly. */
  function Remainder(n: nat, numRouters: nat): (r: nat)
    requires numRouters > 0
    ensures r <= n && r < numRouters
  {
    n % numRouters
  }

  predicate OnlyDmaLeft(nodes: seq<Controller>, numRouters: nat)
    requires numRouters > 0
  {
    forall i :: |nodes| - Remainder(|nodes|, numRouters) <= i < |nodes| ==> nodes[i].dma
  }

  /** The routers fill whole rows, and only DMA controllers are left over. */
  predicate Fits(nodes: seq<Controller>, numCpus: nat, meshRows: int)
  {
    numCpus > 0 && 0 < meshRows <= numCpus && (numCpus / meshRows) * meshRows == numCpus && OnlyDmaLeft(nodes, numCpus)
  }

  /** Each controller has one link, numbered in order; controllers are dealt out round, the rest goes to router 0. */
  predicate Connected(nodes: seq<Controller>, numRouters: nat, ext: seq<ExtLink>)
    requires numRouters > 0
  {
    && |ext| == |nodes|
    && forall i :: 0 <= i < |nodes| ==> ext[i] == ExtLink(i, nodes[i], if i < |nodes| - Remainder(|nodes|, numRouters) then i % numRouters else 0)
  }

  /** Counting by residues: of the first full * m numbers, full leave the remainder r. */
  lemma {:induction false} ResidueCount(m: nat, full: nat, r: nat)
    requires r < m
    ensures |Residues(m, full, r)| == full
    decreases full
  {
    if full > 0 {
      ResidueCount(m, full - 1, r);
      var x := m * (full - 1) + r;
      assert m * full == m * (full - 1) + m;
      forall i: nat | i < m * full && i % m == r && i >= m * (full - 1) ensures i == x { SameResidue(m, full - 1, i); }
      SameResidue(m, full - 1, x);
      assert Residues(m, full, r) == Residues(m, full - 1, r) + {x};
    }
  }

  ghost function Residues(m: nat, full: nat, r: nat): set<nat>
    requires m > 0
  {
    set i: nat | i < m * full && i % m == r
  }

  lemma SameResidue(m: nat, q: nat, i: nat)
    requires m > 0 && m * q <= i < m * q + m
    ensures i % m == i - m * q
  {
    var d := i / m - q;
    assert i == m * q + m * d + i % m;
    if d > 0 { TimesMono(m, 1, d); }
    if d < 0 { TimesMono(m, 1, -d); }
  }

  /**
   * What the external links do, in numbers: every router gets the same number of dealt controllers, one after
   * the other, and the others, fewer than there are routers, go to router 0.
   */
  lemma DealtEvenly(nodes: seq<Controller>, numRouters: nat, ext: seq<ExtLink>)
    requires numRouters > 0 && Connected(nodes, numRouters, ext)
    ensures var full := |nodes| / numRouters;
            var dealt := numRouters * full;
            && dealt <= |nodes| < dealt + numRouters
            && (forall r: nat :: r < numRouters ==> |LinkedTo(ext, dealt, r)| == full)
            && (dealt > 0 ==> ext[0].router == 0)
            && (forall i :: 0 <= i < dealt - 1 ==> ext[i + 1].router == if ext[i].router + 1 == numRouters then 0 else ext[i].router + 1)
            && (forall i :: dealt <= i < |nodes| ==> ext[i].router == 0)
  {
    var full := |nodes| / numRouters;
    var dealt := numRouters * full;
    assert dealt == |nodes| - Remainder(|nodes|, numRouters);
    forall r: nat | r < numRouters ensures |LinkedTo(ext, dealt, r)| == full {
      ResidueCount(numRouters, full, r);
      assert LinkedTo(ext, dealt, r) == Residues(numRouters, full, r);
    }
    forall i | 0 <= i < dealt - 1 ensures (i + 1) % numRouters == if i % numRouters + 1 == numRouters then 0 else i % numRouters + 1 {
      NextResidue(numRouters, i);
    }
  }

  lemma NextResidue(m: nat, i: nat)
    requires m > 0
    ensures (i + 1) % m == if i % m + 1 == m then 0 else i % m + 1
  {
    if i % m + 1 == m {
      assert i + 1 == m * (i / m + 1);
      SameResidue(m, i / m + 1, i + 1);
    } else {
      SameResidue(m, i / m, i + 1);
    }
  }

  /** The first n controllers that are linked to router r. */
  ghost function LinkedTo(ext: seq<ExtLink>, n: nat, r: nat): set<nat>
    requires n <= |ext|
  {
    set i: nat | i < n && ext[i].router == r
  }

  /**
   * When a mesh can be built: the routers form a rectangle with the given number of rows, and the controllers
   * beyond the last full round are DMA.
   */
  lemma FitsWhen(nodes: seq<Controller>, numCpus: nat, meshRows: int)
    ensures Fits(nodes, numCpus, meshRows) <==>
            && (exists columns: nat :: columns > 0 && meshRows > 0 && meshRows * columns == numCpus)
            && (forall i :: numCpus > 0 && numCpus * (|nodes| / numCpus) <= i < |nodes| ==> nodes[i].dma)
  {
    if columns: nat :| columns > 0 && meshRows > 0 && meshRows * columns == numCpus {
      TimesMono(meshRows, 1, columns);
      QuotientOf(meshRows, columns);
    }
    if Fits(nodes, numCpus, meshRows) {
      var columns := numCpus / meshRows;
      assert meshRows * columns == columns * meshRows == numCpus;
      assert columns > 0;
    }
    if numCpus > 0 { assert numCpus * (|nodes| / numCpus) == |nodes| - Remainder(|nodes|, numCpus); }
  }

  lemma QuotientOf(m: nat, q: nat)
    requires m > 0
    ensures (m * q) / m == q && q * m == m * q
  {
    SameResidue(m, q, m * q);
  }

  /** If the routers divide the controllers, none is left over, and none needs to be DMA. */
  lemma NoneLeft(nodes: seq<Controller>, numRouters: nat)
    requires numRouters > 0 && |nodes| % numRouters == 0
    ensures OnlyDmaLeft(nodes, numRouters)
  {
  }

  /** The controllers that are dealt out evenly fill whole levels. */
  lemma LevelFits(n: nat, numRouters: nat, i: nat)
    requires numRouters > 0 && i < n - Remainder(n, numRouters)
    ensures i / numRouters < n / numRouters
  {
    var level, full := i / numRouters, n / numRouters;
    assert numRouters * level <= i < numRouters * full;
    if level >= full { TimesMono(numRouters, full, level); }
  }

  lemma TimesMono(c: nat, x: nat, y: nat)
    requires x <= y
    ensures c * x <= c * y
  {
  }

  /** The asserts on the level and on the remainder never fail; the one on the type fails unless only DMA is left. */
  method ConnectNodes(nodes: seq<Controller>, numRouters: nat) returns (res: Result<seq<ExtLink>>, linkCount: nat)
    requires numRouters > 0
    ensures res.Built? <==> OnlyDmaLeft(nodes, numRouters)
    ensures res.Built? ==> Connected(nodes, numRouters, res.value) && linkCount == |res.value|
  {
    linkCount := 0;
    var cntrlsPerRouter, remainder := |nodes| / numRouters, Remainder(|nodes|, numRouters);
    var networkNodes, remainderNodes := [], [];
    for i := 0 to |nodes|
      invariant networkNodes == nodes[..if i < |nodes| - remainder then i else |nodes| - remainder]
      invariant remainderNodes == nodes[|nodes| - remainder..][..if i < |nodes| - remainder then 0 else i - (|nodes| - remainder)]
    {
      if i < |nodes| - remainder {
        networkNodes := networkNodes + [nodes[i]];
      } else {
        remainderNodes := remainderNodes + [nodes[i]];
      }
    }
    var ext := [];
    for i := 0 to |networkNodes|
      invariant linkCount == |ext| == i
      invariant forall k :: 0 <= k < i ==> ext[k] == ExtLink(k, nodes[k], k % numRouters)
    {
      var cntrlLevel, routerId := i / numRouters, i % numRouters;
      LevelFits(|nodes|, numRouters, i);
      if cntrlLevel >= cntrlsPerRouter {
        return Failed, linkCount;
      }
      ext := ext + [ExtLink(linkCount, networkNodes[i], routerId)];
      linkCount := linkCount + 1;
    }
    for i := 0 to |remainderNodes|
      invariant linkCount == |ext| == |networkNodes| + i
      invariant forall k :: 0 <= k < |ext| ==> ext[k] == ExtLink(k, nodes[k], if k < |networkNodes| then k % numRouters else 0)
      invariant forall k :: |networkNodes| <= k < |networkNodes| + i ==> nodes[k].dma
    {
      if !remainderNodes[i].dma {
        assert !nodes[|networkNodes| + i].dma;
        return Failed, linkCount;
      }
      if i >= remainder {
        return Failed, linkCount;
      }
      ext := ext + [ExtLink(linkCount, remainderNodes[i], 0)];
      linkCount := linkCount + 1;
    }
    return Built(ext), linkCount;
  }

  /** The four pairs of loops that link the routers. */
  method LinkRouters(kind: Kind, rows: nat, columns: nat, linkCount: nat) returns (links: seq<IntLink>)
    requires rows > 0 && columns > 0
    ensures IsMesh(kind, rows, columns, links, linkCount)
    ensures forall k, m :: 0 <= k < m < |links| ==> Precedes(columns, links[k], links[m])
    ensures |links| == 2 * (rows * (columns - 1)) + 2 * (columns * (rows - 1))
  {
    var count := linkCount;
    links := [];
    links, count := AddLinks(kind, East, rows, columns, links, count);
    assert count == linkCount + LinksBefore(West, rows, columns);
    links, count := AddLinks(kind, West, rows, columns, links, count);
    assert count == linkCount + LinksBefore(North, rows, columns);
    links, count := AddLinks(kind, North, rows, columns, links, count);
    assert count == linkCount + LinksBefore(South, rows, columns);
    links, count := AddLinks(kind, South, rows, columns, links, count);
    assert links == AllLinks(kind, rows, columns, linkCount);
    AllLinksMesh(kind, rows, columns, linkCount);
    forall k, m | 0 <= k < m < |links| ensures Precedes(columns, links[k], links[m]) { AllLinksOrder(kind, rows, columns, linkCount, k, m); }
  }

  method MakeTopology(kind: Kind, nodes: seq<Controller>, numCpus: nat, meshRows: int) returns (res: Result<Network>)
    ensures res.Built? <==> Fits(nodes, numCpus, meshRows)
    ensures res.Built? ==> res.value.numRouters == numCpus && Connected(nodes, numCpus, res.value.extLinks)
    ensures res.Built? ==> IsMesh(kind, meshRows, numCpus / meshRows, res.value.intLinks, |nodes|)
    ensures res.Built? ==> forall k, m :: 0 <= k < m < |res.value.intLinks| ==>
                                            Precedes(numCpus / meshRows, res.value.intLinks[k], res.value.intLinks[m])
  {
    if numCpus == 0 || !(meshRows > 0 && meshRows <= numCpus) {
      return Failed;
    }
    var columns := numCpus / meshRows;
    if columns * meshRows != numCpus {
      return Failed;
    }
    var ext, linkCount := ConnectNodes(nodes, numCpus);
    if ext.Failed? {
      return Failed;
    }
    var links := LinkRouters(kind, meshRows, columns, linkCount);
    return Built(Network(numCpus, ext.value, links));
  }
}
