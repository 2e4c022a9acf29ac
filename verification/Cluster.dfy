/**
 * The hierarchical topology of topologies/Cluster.py: one router per cluster, a
 * pair of links between a cluster and each of its sub-clusters, and one
 * external link per controller.
 */
module Clusters {

  /** A bandwidth or latency of 0 is not set. */
  datatype Node =
    | Controller(name: string)
    | Cluster(nodes: seq<Node>, intBW: nat, extBW: nat, intLatency: nat, extLatency: nat)

  datatype IntLink = IntLink(id: nat, src: nat, dst: nat, bandwidth: nat, latency: nat)

  datatype ExtLink = ExtLink(id: nat, name: string, router: nat, bandwidth: nat, latency: nat)

  /** The lists of a network together with the counters of the Cluster class. */
  datatype Net = Net(
    routers: seq<nat>, intLinks: seq<IntLink>, extLinks: seq<ExtLink>,
    numRouters: nat, numIntLinks: nat, numExtLinks: nat)

  const FRESH := Net([], [], [], 0, 0, 0)

  /** The sub-cluster's own external setting overrides the internal one of its parent. */
  function Override(outer: nat, inner: nat): nat
  {
    if outer != 0 then outer else inner
  }

  // ----- the network as a function of the cluster -----

  function Make(c: Node, net: Net): Net
    requires c.Cluster?
    decreases c, 1, 0
  {
    MakeNodes(c, |c.nodes|, net.numRouters,
              net.(routers := net.routers + [net.numRouters], numRouters := net.numRouters + 1))
  }

  /** The first k nodes of c, which has the given router. */
  function MakeNodes(c: Node, k: nat, router: nat, net: Net): Net
    requires c.Cluster? && k <= |c.nodes|
    decreases c, 0, k
  {
    if k == 0 then net
    else
      var before := MakeNodes(c, k - 1, router, net);
      match c.nodes[k - 1]
      case Controller(name) => AddController(c, name, router, before)
      case Cluster(_, _, _, _, _) => JoinCluster(c, c.nodes[k - 1], router, before.numRouters, Make(c.nodes[k - 1], before))
  }

  function AddController(c: Node, name: string, router: nat, net: Net): Net
    requires c.Cluster?
  {
    net.(extLinks := net.extLinks + [ExtLink(net.numExtLinks, name, router, c.intBW, c.intLatency)],
    numExtLinks := net.numExtLinks + 1)
  }

  function JoinCluster(c: Node, sub: Node, router: nat, subRouter: nat, net: Net): Net
    requires c.Cluster? && sub.Cluster?
  {
    var bw, lat := Override(sub.extBW, c.intBW), Override(sub.extLatency, c.intLatency);
    net.(intLinks := net.intLinks + [IntLink(net.numIntLinks, router, subRouter, bw, lat),
                                     IntLink(net.numIntLinks + 1, subRouter, router, bw, lat)],
    numIntLinks := net.numIntLinks + 2)
  }

  /** The Python objects that makeTopology() mutates. */
  class Builder {
    var routers: seq<nat>
    var intLinks: seq<IntLink>
    var extLinks: seq<ExtLink>
    var numRouters: nat
    var numIntLinks: nat
    var numExtLinks: nat

    ghost function State(): Net
      reads this
    {
      Net(routers, intLinks, extLinks, numRouters, numIntLinks, numExtLinks)
    }

    constructor ()
      ensures State() == FRESH
    {
      routers, intLinks, extLinks := [], [], [];
      numRouters, numIntLinks, numExtLinks := 0, 0, 0;
    }

    method NextRouter() returns (id: nat)
      modifies this`numRouters
      ensures id == old(numRouters) && numRouters == id + 1
    {
      numRouters := numRouters + 1;
      return numRouters - 1;
    }

    method NextIntLink() returns (id: nat)
      modifies this`numIntLinks
      ensures id == old(numIntLinks) && numIntLinks == id + 1
    {
      numIntLinks := numIntLinks + 1;
      return numIntLinks - 1;
    }

    method NextExtLink() returns (id: nat)
      modifies this`numExtLinks
      ensures id == old(numExtLinks) && numExtLinks == id + 1
    {
      numExtLinks := numExtLinks + 1;
      return numExtLinks - 1;
    }

    method MakeTopology(c: Node) returns (router: nat)
      requires c.Cluster?
      modifies this
      ensures State() == Make(c, old(State())) && router == old(numRouters)
      decreases c
    {
      router := NextRouter();
      routers := routers + [router];
      ghost var start := State();
      for k := 0 to |c.nodes|
        invariant State() == MakeNodes(c, k, router, start)
      {
        var node := c.nodes[k];
        match node
        case Cluster(_, _, _, _, _) =>
          var sub := MakeTopology(node);
          LinkCluster(c, node, router, sub);
        case Controller(name) =>
          LinkController(c, name, router);
      }
    }

    /** The pair of links between a cluster and its sub-cluster. */
    method LinkCluster(c: Node, node: Node, router: nat, sub: nat)
      requires c.Cluster? && node.Cluster?
      modifies this`intLinks, this`numIntLinks
      ensures State() == JoinCluster(c, node, router, sub, old(State()))
    {
      var id := NextIntLink();
      var linkOut := IntLink(id, router, sub, 0, 0);
      id := NextIntLink();
      var linkIn := IntLink(id, sub, router, 0, 0);
      if node.extBW != 0 {
        linkOut := linkOut.(bandwidth := node.extBW);
        linkIn := linkIn.(bandwidth := node.extBW);
      } else if c.intBW != 0 {
        linkOut := linkOut.(bandwidth := c.intBW);
        linkIn := linkIn.(bandwidth := c.intBW);
      }
      if node.extLatency != 0 {
        linkOut := linkOut.(latency := node.extLatency);
        linkIn := linkIn.(latency := node.extLatency);
      } else if c.intLatency != 0 {
        linkOut := linkOut.(latency := c.intLatency);
        linkIn := linkIn.(latency := c.intLatency);
      }
      intLinks := intLinks + [linkOut];
      intLinks := intLinks + [linkIn];
    }

    /** The link of a controller to the router of its cluster. */
    method LinkController(c: Node, name: string, router: nat)
      requires c.Cluster?
      modifies this`extLinks, this`numExtLinks
      ensures State() == AddController(c, name, router, old(State()))
    {
      var id := NextExtLink();
      var link := ExtLink(id, name, router, 0, 0);
      if c.intBW != 0 {
        link := link.(bandwidth := c.intBW);
      }
      if c.intLatency != 0 {
        link := link.(latency := c.intLatency);
      }
      extLinks := extLinks + [link];
    }
  }

  // ----- counting -----

  /** The number of clusters in c, itself included. */
  function ClusterCount(c: Node): nat
    requires c.Cluster?
    decreases c, 1, 0
  {
    1 + SubClusters(c, |c.nodes|)
  }

  function SubClusters(c: Node, k: nat): nat
    requires c.Cluster? && k <= |c.nodes|
    decreases c, 0, k
  {
    if k == 0 then 0
    else SubClusters(c, k - 1) + if c.nodes[k - 1].Cluster? then ClusterCount(c.nodes[k - 1]) else 0
  }

  /** len(c): the controllers among its nodes, and the sum of the lengths of its sub-clusters. */
  function Len(c: Node): nat
    requires c.Cluster?
    decreases c, 1, 0
  {
    OwnControllers(c, |c.nodes|) + SubLengths(c, |c.nodes|)
  }

  function OwnControllers(c: Node, k: nat): nat
    requires c.Cluster? && k <= |c.nodes|
  {
    if k == 0 then 0 else OwnControllers(c, k - 1) + if c.nodes[k - 1].Controller? then 1 else 0
  }

  function SubLengths(c: Node, k: nat): nat
    requires c.Cluster? && k <= |c.nodes|
    decreases c, 0, k
  {
    if k == 0 then 0 else SubLengths(c, k - 1) + if c.nodes[k - 1].Cluster? then Len(c.nodes[k - 1]) else 0
  }

  /** net' adds nr routers, ni internal and ne external links to net, each kind numbered on from its counter. */
  ghost predicate Extends(net: Net, net': Net, nr: nat, ni: nat, ne: nat)
  {
    && net.routers <= net'.routers && net.intLinks <= net'.intLinks && net.extLinks <= net'.extLinks
    && |net'.routers| - |net.routers| == nr == net'.numRouters - net.numRouters
    && |net'.intLinks| - |net.intLinks| == ni == net'.numIntLinks - net.numIntLinks
    && |net'.extLinks| - |net.extLinks| == ne == net'.numExtLinks - net.numExtLinks
    && (forall i :: |net.routers| <= i < |net'.routers| ==> net'.routers[i] == net.numRouters + i - |net.routers|)
    && (forall i :: |net.intLinks| <= i < |net'.intLinks| ==> net'.intLinks[i].id == net.numIntLinks + i - |net.intLinks|)
    && (forall i :: |net.extLinks| <= i < |net'.extLinks| ==> net'.extLinks[i].id == net.numExtLinks + i - |net.extLinks|)
  }

  lemma ExtendsTransitive(a: Net, b: Net, c: Net, nr: nat, ni: nat, ne: nat, mr: nat, mi: nat, me: nat)
    requires Extends(a, b, nr, ni, ne) && Extends(b, c, mr, mi, me)
    ensures Extends(a, c, nr + mr, ni + mi, ne + me)
  {
    assert forall i :: 0 <= i < |b.routers| ==> c.routers[i] == b.routers[i];
    assert forall i :: 0 <= i < |b.intLinks| ==> c.intLinks[i] == b.intLinks[i];
    assert forall i :: 0 <= i < |b.extLinks| ==> c.extLinks[i] == b.extLinks[i];
  }

  /** One router per cluster, two links per sub-cluster, one external link per controller. */
  lemma {:induction false} MakeCounts(c: Node, net: Net)
    requires c.Cluster?
    ensures Extends(net, Make(c, net), ClusterCount(c), 2 * (ClusterCount(c) - 1), Len(c))
    decreases c, 1, 0
  {
    var start := net.(routers := net.routers + [net.numRouters], numRouters := net.numRouters + 1);
    MakeNodesCounts(c, |c.nodes|, net.numRouters, start);
    ExtendsTransitive(net, start, Make(c, net), 1, 0, 0, SubClusters(c, |c.nodes|), 2 * SubClusters(c, |c.nodes|), Len(c));
  }

  lemma JoinExtends(c: Node, sub: Node, router: nat, subRouter: nat, net: Net)
    requires c.Cluster? && sub.Cluster?
    ensures Extends(net, JoinCluster(c, sub, router, subRouter, net), 0, 2, 0)
  {
  }

  lemma ControllerExtends(c: Node, name: string, router: nat, net: Net)
    requires c.Cluster?
    ensures Extends(net, AddController(c, name, router, net), 0, 0, 1)
  {
  }

  lemma {:induction false} MakeNodesCounts(c: Node, k: nat, router: nat, net: Net)
    requires c.Cluster? && k <= |c.nodes|
    ensures Extends(net, MakeNodes(c, k, router, net), SubClusters(c, k), 2 * SubClusters(c, k), OwnControllers(c, k) + SubLengths(c, k))
    decreases c, 0, k
  {
    if k > 0 {
      var before, node := MakeNodes(c, k - 1, router, net), c.nodes[k - 1];
      MakeNodesCounts(c, k - 1, router, net);
      var nr, ne := SubClusters(c, k - 1), OwnControllers(c, k - 1) + SubLengths(c, k - 1);
      if node.Cluster? {
        MakeCounts(node, before);
        SubClusterCounts(c, node, router, net, before, Make(node, before), nr, ne, ClusterCount(node), Len(node));
      } else {
        ControllerCounts(c, node.name, router, net, before, nr, ne);
      }
    }
  }

  lemma ControllerCounts(c: Node, name: string, router: nat, net: Net, before: Net, nr: nat, ne: nat)
    requires c.Cluster? && Extends(net, before, nr, 2 * nr, ne)
    ensures Extends(net, AddController(c, name, router, before), nr, 2 * nr, ne + 1)
  {
    ControllerExtends(c, name, router, before);
    ExtendsTransitive(net, before, AddController(c, name, router, before), nr, 2 * nr, ne, 0, 0, 1);
  }

  lemma SubClusterCounts(c: Node, sub: Node, router: nat, net: Net, before: Net, made: Net, nr: nat, ne: nat, m: nat, len: nat)
    requires c.Cluster? && sub.Cluster? && m > 0
    requires Extends(net, before, nr, 2 * nr, ne) && Extends(before, made, m, 2 * (m - 1), len)
    ensures Extends(net, JoinCluster(c, sub, router, before.numRouters, made), nr + m, 2 * (nr + m), ne + len)
  {
    ExtendsTransitive(net, before, made, nr, 2 * nr, ne, m, 2 * (m - 1), len);
    JoinExtends(c, sub, router, before.numRouters, made);
    ExtendsTransitive(net, made, JoinCluster(c, sub, router, before.numRouters, made), nr + m, 2 * nr + 2 * (m - 1), ne + len, 0, 2, 0);
  }

  // ----- the links form a tree -----

  /** The number of pairs of links from position lo on. */
  function Pairs(links: seq<IntLink>, lo: nat): nat
    requires lo <= |links|
  {
    (|links| - lo) / 2
  }

  /** The router at the lower end of pair j. */
  function Child(links: seq<IntLink>, lo: nat, j: nat): nat
    requires lo <= |links| && j < Pairs(links, lo)
  {
    links[lo + 2 * j].dst
  }

  /** The router at the upper end of pair j. */
  function Parent(links: seq<IntLink>, lo: nat, j: nat): nat
    requires lo <= |links| && j < Pairs(links, lo)
  {
    links[lo + 2 * j].src
  }

  /** Pair j leads down to a router of a later number and up again. */
  ghost predicate GoodPair(links: seq<IntLink>, lo: nat, j: nat, root: nat, hi: nat)
    requires lo <= |links| && j < Pairs(links, lo)
  {
    && root <= Parent(links, lo, j) < Child(links, lo, j) < hi
    && links[lo + 2 * j + 1].src == Child(links, lo, j) && links[lo + 2 * j + 1].dst == Parent(links, lo, j)
  }

  ghost predicate HasParent(links: seq<IntLink>, lo: nat, u: nat)
    requires lo <= |links|
  {
    exists j: nat :: j < Pairs(links, lo) && Child(links, lo, j) == u
  }

  /**
   * The links from position lo on come in pairs, down and up, and each router in (root, hi)
   * is at the lower end of exactly one pair.
   */
  ghost predicate TreeFrom(links: seq<IntLink>, lo: nat, root: nat, hi: nat)
  {
    && lo <= |links| && (|links| - lo) % 2 == 0
    && (forall j: nat :: j < Pairs(links, lo) ==> GoodPair(links, lo, j, root, hi))
    && (forall u: nat :: root < u < hi ==> HasParent(links, lo, u))
    && (forall i: nat, j: nat :: i < j < Pairs(links, lo) ==> Child(links, lo, i) != Child(links, lo, j))
  }

  /** A tree, the tree of a sub-cluster after it, and the pair that joins them. */
  lemma TreeJoin(links: seq<IntLink>, lo: nat, root: nat, mid: nat, more: seq<IntLink>, hi: nat, down: IntLink, up: IntLink)
    requires TreeFrom(links, lo, root, mid) && root < mid < hi
    requires links <= more && TreeFrom(more, |links|, mid, hi)
    requires down.src == root == up.dst && down.dst == mid == up.src
    ensures TreeFrom(more + [down, up], lo, root, hi)
  {
    var all := more + [down, up];
    var a, b := Pairs(links, lo), Pairs(more, |links|);
    forall j: nat | j < Pairs(all, lo) ensures GoodPair(all, lo, j, root, hi) {
      if j < a {
        assert GoodPair(links, lo, j, root, mid);
      } else if j < a + b {
        assert GoodPair(more, |links|, j - a, mid, hi);
      }
    }
    forall u: nat | root < u < hi ensures HasParent(all, lo, u) {
      if u < mid {
        assert HasParent(links, lo, u);
        var j: nat :| j < a && Child(links, lo, j) == u;
        assert Child(all, lo, j) == u;
      } else if u == mid {
        assert Child(all, lo, a + b) == u;
      } else {
        assert HasParent(more, |links|, u);
        var j: nat :| j < b && Child(more, |links|, j) == u;
        assert Child(all, lo, a + j) == u;
      }
    }
    forall i: nat, j: nat | i < j < Pairs(all, lo) ensures Child(all, lo, i) != Child(all, lo, j) {
      ChildRange(links, lo, root, mid, more, hi, down, up, i);
      ChildRange(links, lo, root, mid, more, hi, down, up, j);
    }
  }

  /** Which of the three parts the pair i of the joined tree comes from. */
  lemma ChildRange(links: seq<IntLink>, lo: nat, root: nat, mid: nat, more: seq<IntLink>, hi: nat, down: IntLink, up: IntLink, i: nat)
    requires TreeFrom(links, lo, root, mid) && root < mid < hi
    requires links <= more && TreeFrom(more, |links|, mid, hi)
    requires down.src == root == up.dst && down.dst == mid == up.src && i < Pairs(more + [down, up], lo)
    ensures var a, b, x := Pairs(links, lo), Pairs(more, |links|), Child(more + [down, up], lo, i);
            && (i < a ==> x == Child(links, lo, i) < mid)
            && (a <= i < a + b ==> x == Child(more, |links|, i - a) > mid)
            && (i >= a + b ==> x == mid && i == a + b)
  {
    var a, b := Pairs(links, lo), Pairs(more, |links|);
    if i < a {
      assert GoodPair(links, lo, i, root, mid);
    } else if i < a + b {
      assert GoodPair(more, |links|, i - a, mid, hi);
    }
  }

  /** The internal links of a cluster form a tree of its routers, with both directions of every edge. */
  lemma {:induction false} MakeTree(c: Node, net: Net)
    requires c.Cluster?
    ensures TreeFrom(Make(c, net).intLinks, |net.intLinks|, net.numRouters, Make(c, net).numRouters)
    ensures net.intLinks <= Make(c, net).intLinks && net.numRouters < Make(c, net).numRouters
    decreases c, 1, 0
  {
    MakeNodesTree(c, |c.nodes|, net.numRouters,
                  net.(routers := net.routers + [net.numRouters], numRouters := net.numRouters + 1));
  }

  lemma {:induction false} MakeNodesTree(c: Node, k: nat, router: nat, net: Net)
    requires c.Cluster? && k <= |c.nodes| && net.numRouters == router + 1
    ensures TreeFrom(MakeNodes(c, k, router, net).intLinks, |net.intLinks|, router, MakeNodes(c, k, router, net).numRouters)
    ensures net.intLinks <= MakeNodes(c, k, router, net).intLinks && router < MakeNodes(c, k, router, net).numRouters
    decreases c, 0, k
  {
    if k > 0 {
      var before, node := MakeNodes(c, k - 1, router, net), c.nodes[k - 1];
      MakeNodesTree(c, k - 1, router, net);
      if node.Cluster? {
        MakeTree(node, before);
        var made := Make(node, before);
        var joined := JoinCluster(c, node, router, before.numRouters, made);
        var n := |made.intLinks|;
        TreeJoin(before.intLinks, |net.intLinks|, router, before.numRouters, made.intLinks, made.numRouters,
                 joined.intLinks[n], joined.intLinks[n + 1]);
      }
    }
  }

  // ----- connectedness -----

  /** path leads along the links from position lo on. */
  ghost predicate IsPath(links: seq<IntLink>, lo: nat, path: seq<nat>)
    requires lo <= |links|
  {
    |path| > 0 && forall i :: 0 <= i && i + 1 < |path| ==> Linked(links, lo, path[i], path[i + 1])
  }

  ghost predicate Linked(links: seq<IntLink>, lo: nat, u: nat, v: nat)
    requires lo <= |links|
  {
    exists k :: lo <= k < |links| && links[k].src == u && links[k].dst == v
  }

  /** Every router is reached from the root, and the way back reaches the root. */
  lemma {:induction false} TreeConnected(links: seq<IntLink>, lo: nat, root: nat, hi: nat, u: nat) returns (down: seq<nat>, up: seq<nat>)
    requires TreeFrom(links, lo, root, hi) && root <= u < hi
    ensures IsPath(links, lo, down) && down[0] == root && down[|down| - 1] == u
    ensures IsPath(links, lo, up) && up[0] == u && up[|up| - 1] == root
    decreases u
  {
    if u == root {
      down, up := [u], [u];
    } else {
      assert HasParent(links, lo, u);
      var j: nat :| j < Pairs(links, lo) && Child(links, lo, j) == u;
      assert GoodPair(links, lo, j, root, hi);
      var p := Parent(links, lo, j);
      down, up := TreeConnected(links, lo, root, hi, p);
      assert Linked(links, lo, p, u) && Linked(links, lo, u, p);
      down, up := down + [u], [u] + up;
      assert forall i :: 0 < i < |up| ==> up[i] == up[1..][i - 1];
    }
  }

  // ----- from fresh counters -----

  /** The whole topology of a root cluster. */
  lemma FreshTopology(c: Node)
    requires c.Cluster?
    ensures var net := Make(c, FRESH);
            && |net.routers| == ClusterCount(c) && (forall i :: 0 <= i < |net.routers| ==> net.routers[i] == i)
            && |net.intLinks| == 2 * (|net.routers| - 1) && (forall i :: 0 <= i < |net.intLinks| ==> net.intLinks[i].id == i)
            && |net.extLinks| == Len(c) && (forall i :: 0 <= i < |net.extLinks| ==> net.extLinks[i].id == i)
            && TreeFrom(net.intLinks, 0, 0, |net.routers|)
  {
    MakeCounts(c, FRESH);
    MakeTree(c, FRESH);
  }
}
