/**
 * What the links of topologies/Cluster.py join: for every router its controllers, and for every
 * pair of internal links its two clusters, with their settings and in their order.
 */
module ClusterLinks {
  import opened Clusters

  /** What an external link says of its controller. */
  datatype Home = Home(name: string, router: nat, bandwidth: nat, latency: nat)

  /** What an internal link joins. */
  datatype Edge = Edge(src: nat, dst: nat, bandwidth: nat, latency: nat)

  /** The clusters in c, each before its sub-clusters, in the order in which they get their routers. */
  function Preorder(c: Node): (r: seq<Node>)
    requires c.Cluster?
    ensures |r| == ClusterCount(c) && r[0] == c && forall i :: 0 <= i < |r| ==> r[i].Cluster?
    decreases c, 1, 0
  {
    [c] + PreorderIn(c, |c.nodes|)
  }

  function PreorderIn(c: Node, k: nat): (r: seq<Node>)
    requires c.Cluster? && k <= |c.nodes|
    ensures |r| == SubClusters(c, k) && forall i :: 0 <= i < |r| ==> r[i].Cluster?
    decreases c, 0, k
  {
    if k == 0 then []
    else PreorderIn(c, k - 1) + if c.nodes[k - 1].Cluster? then Preorder(c.nodes[k - 1]) else []
  }

  /** The router of the node k of a cluster whose router is given. */
  function SubRouter(c: Node, k: nat, router: nat): nat
    requires c.Cluster? && k < |c.nodes|
  {
    router + 1 + SubClusters(c, k)
  }

  /** The controllers in c, whose router is given, in the order of its nodes. */
  function Homes(c: Node, router: nat): seq<Home>
    requires c.Cluster?
    decreases c, 1, 0
  {
    HomesIn(c, |c.nodes|, router)
  }

  function HomesIn(c: Node, k: nat, router: nat): seq<Home>
    requires c.Cluster? && k <= |c.nodes|
    decreases c, 0, k
  {
    if k == 0 then []
    else
      var node := c.nodes[k - 1];
      HomesIn(c, k - 1, router) +
      if node.Cluster? then Homes(node, SubRouter(c, k - 1, router)) else [Home(node.name, router, c.intBW, c.intLatency)]
  }

  /** The pairs of links in c, those of a sub-cluster before the pair that joins it. */
  function Edges(c: Node, router: nat): seq<Edge>
    requires c.Cluster?
    decreases c, 1, 0
  {
    EdgesIn(c, |c.nodes|, router)
  }

  function EdgesIn(c: Node, k: nat, router: nat): seq<Edge>
    requires c.Cluster? && k <= |c.nodes|
    decreases c, 0, k
  {
    if k == 0 then []
    else
      var node := c.nodes[k - 1];
      EdgesIn(c, k - 1, router) +
      if node.Cluster? then
        var sub := SubRouter(c, k - 1, router);
        var bw, lat := Override(node.extBW, c.intBW), Override(node.extLatency, c.intLatency);
        Edges(node, sub) + [Edge(router, sub, bw, lat), Edge(sub, router, bw, lat)]
      else []
  }

  function LinkHomes(links: seq<ExtLink>): (r: seq<Home>)
    ensures |r| == |links|
  {
    seq(|links|, i requires 0 <= i < |links| => Home(links[i].name, links[i].router, links[i].bandwidth, links[i].latency))
  }

  function LinkEdges(links: seq<IntLink>): (r: seq<Edge>)
    ensures |r| == |links|
  {
    seq(|links|, i requires 0 <= i < |links| => Edge(links[i].src, links[i].dst, links[i].bandwidth, links[i].latency))
  }

  /** Every controller is linked once, in the order of the nodes, and every sub-cluster is joined to its parent. */
  lemma {:induction false} MakeLinks(c: Node, net: Net)
    requires c.Cluster?
    ensures LinkHomes(Make(c, net).extLinks) == LinkHomes(net.extLinks) + Homes(c, net.numRouters)
    ensures LinkEdges(Make(c, net).intLinks) == LinkEdges(net.intLinks) + Edges(c, net.numRouters)
    decreases c, 1, 0
  {
    MakeNodesLinks(c, |c.nodes|, net.numRouters,
                   net.(routers := net.routers + [net.numRouters], numRouters := net.numRouters + 1));
  }

  lemma {:induction false} MakeNodesLinks(c: Node, k: nat, router: nat, net: Net)
    requires c.Cluster? && k <= |c.nodes| && net.numRouters == router + 1
    ensures LinkHomes(MakeNodes(c, k, router, net).extLinks) == LinkHomes(net.extLinks) + HomesIn(c, k, router)
    ensures LinkEdges(MakeNodes(c, k, router, net).intLinks) == LinkEdges(net.intLinks) + EdgesIn(c, k, router)
    decreases c, 0, k
  {
    if k > 0 {
      var before, node := MakeNodes(c, k - 1, router, net), c.nodes[k - 1];
      MakeNodesLinks(c, k - 1, router, net);
      if node.Cluster? {
        RoutersSoFar(c, k - 1, router, net);
        MakeLinks(node, before);
        SubClusterLinks(c, k, router, net, before, Make(node, before));
      } else {
        ControllerLinks(c, node.name, router, before);
      }
    }
  }

  /** The links of the first k nodes, from those of the nodes before and those of a sub-cluster. */
  lemma SubClusterLinks(c: Node, k: nat, router: nat, net: Net, before: Net, mid: Net)
    requires c.Cluster? && 0 < k <= |c.nodes| && c.nodes[k - 1].Cluster? && before.numRouters == SubRouter(c, k - 1, router)
    requires LinkHomes(before.extLinks) == LinkHomes(net.extLinks) + HomesIn(c, k - 1, router)
    requires LinkEdges(before.intLinks) == LinkEdges(net.intLinks) + EdgesIn(c, k - 1, router)
    requires LinkHomes(mid.extLinks) == LinkHomes(before.extLinks) + Homes(c.nodes[k - 1], before.numRouters)
    requires LinkEdges(mid.intLinks) == LinkEdges(before.intLinks) + Edges(c.nodes[k - 1], before.numRouters)
    ensures var net' := JoinCluster(c, c.nodes[k - 1], router, before.numRouters, mid);
            && LinkHomes(net'.extLinks) == LinkHomes(net.extLinks) + HomesIn(c, k, router)
            && LinkEdges(net'.intLinks) == LinkEdges(net.intLinks) + EdgesIn(c, k, router)
  {
    JoinLinks(c, c.nodes[k - 1], router, before.numRouters, mid);
  }

  lemma RoutersSoFar(c: Node, k: nat, router: nat, net: Net)
    requires c.Cluster? && k <= |c.nodes|
    ensures MakeNodes(c, k, router, net).numRouters == net.numRouters + SubClusters(c, k)
  {
    MakeNodesCounts(c, k, router, net);
  }

  lemma JoinLinks(c: Node, sub: Node, router: nat, subRouter: nat, net: Net)
    requires c.Cluster? && sub.Cluster?
    ensures var net' := JoinCluster(c, sub, router, subRouter, net);
            var bw, lat := Override(sub.extBW, c.intBW), Override(sub.extLatency, c.intLatency);
            && LinkHomes(net'.extLinks) == LinkHomes(net.extLinks)
            && LinkEdges(net'.intLinks) == LinkEdges(net.intLinks) + [Edge(router, subRouter, bw, lat), Edge(subRouter, router, bw, lat)]
  {
  }

  lemma ControllerLinks(c: Node, name: string, router: nat, net: Net)
    requires c.Cluster?
    ensures var net' := AddController(c, name, router, net);
            && LinkHomes(net'.extLinks) == LinkHomes(net.extLinks) + [Home(name, router, c.intBW, c.intLatency)]
            && LinkEdges(net'.intLinks) == LinkEdges(net.intLinks)
  {
  }

  /** The router of a controller is that of the cluster which directly holds it, with that cluster's settings. */
  ghost predicate HeldBy(clusters: seq<Node>, h: Home, first: nat)
  {
    && first <= h.router < first + |clusters|
    && var holder := clusters[h.router - first];
       holder.Cluster? && Controller(h.name) in holder.nodes && h.bandwidth == holder.intBW && h.latency == holder.intLatency
  }

  lemma {:induction false} HomesHeld(c: Node, router: nat, i: nat)
    requires c.Cluster? && i < |Homes(c, router)|
    ensures HeldBy(Preorder(c), Homes(c, router)[i], router)
    decreases c, 1, 0
  {
    HomesInHeld(c, |c.nodes|, router, i);
  }

  lemma {:induction false} HomesInHeld(c: Node, k: nat, router: nat, i: nat)
    requires c.Cluster? && k <= |c.nodes| && i < |HomesIn(c, k, router)|
    ensures HeldBy([c] + PreorderIn(c, k), HomesIn(c, k, router)[i], router)
    decreases c, 0, k
  {
    var node, front := c.nodes[k - 1], |HomesIn(c, k - 1, router)|;
    if i < front {
      HomesInHeld(c, k - 1, router, i);
      FrontHeld(c, k, router, i);
    } else if node.Cluster? {
      HomesHeld(node, SubRouter(c, k - 1, router), i - front);
      InnerHeld(c, k, router, i);
    } else {
      assert node in c.nodes;
    }
  }

  lemma HeldWithin(a: seq<Node>, b: seq<Node>, c: seq<Node>, h: Home, first: nat)
    requires HeldBy(b, h, first + |a|)
    ensures HeldBy(a + b + c, h, first)
  {
    assert (a + b + c)[h.router - first] == b[h.router - first - |a|];
  }

  lemma FrontHeld(c: Node, k: nat, router: nat, i: nat)
    requires c.Cluster? && 0 < k <= |c.nodes| && i < |HomesIn(c, k - 1, router)|
    requires HeldBy([c] + PreorderIn(c, k - 1), HomesIn(c, k - 1, router)[i], router)
    ensures HeldBy([c] + PreorderIn(c, k), HomesIn(c, k, router)[i], router)
  {
    var clusters := [c] + PreorderIn(c, k - 1);
    var rest := if c.nodes[k - 1].Cluster? then Preorder(c.nodes[k - 1]) else [];
    HeldWithin([], clusters, rest, HomesIn(c, k - 1, router)[i], router);
    assert [] + clusters + rest == [c] + PreorderIn(c, k);
  }

  lemma InnerHeld(c: Node, k: nat, router: nat, i: nat)
    requires c.Cluster? && 0 < k <= |c.nodes| && c.nodes[k - 1].Cluster?
    requires var node, front, sub := c.nodes[k - 1], |HomesIn(c, k - 1, router)|, SubRouter(c, k - 1, router);
             front <= i < front + |Homes(node, sub)| && HeldBy(Preorder(node), Homes(node, sub)[i - front], sub)
    ensures i < |HomesIn(c, k, router)| && HeldBy([c] + PreorderIn(c, k), HomesIn(c, k, router)[i], router)
  {
    var node, front, sub := c.nodes[k - 1], |HomesIn(c, k - 1, router)|, SubRouter(c, k - 1, router);
    var clusters := [c] + PreorderIn(c, k - 1);
    HeldWithin(clusters, Preorder(node), [], Homes(node, sub)[i - front], router);
    assert clusters + Preorder(node) + [] == [c] + PreorderIn(c, k);
  }

  // ----- the links of each router -----

  /** The controllers among the nodes. */
  function ControllerNames(nodes: seq<Node>): seq<string>
  {
    if |nodes| == 0 then []
    else (if nodes[0].Controller? then [nodes[0].name] else []) + ControllerNames(nodes[1..])
  }

  /** The controllers linked to a router, in the order of the links. */
  function NamesAt(homes: seq<Home>, router: nat): seq<string>
  {
    if |homes| == 0 then []
    else (if homes[0].router == router then [homes[0].name] else []) + NamesAt(homes[1..], router)
  }

  lemma {:induction false} NamesAtJoin(a: seq<Home>, b: seq<Home>, router: nat)
    ensures NamesAt(a + b, router) == NamesAt(a, router) + NamesAt(b, router)
  {
    if |a| == 0 {
      assert a + b == b;
    } else {
      NamesAtJoin(a[1..], b, router);
      assert a + b == [a[0]] + (a[1..] + b) && a == [a[0]] + a[1..];
      NamesAtStep(a[0], a[1..] + b, router);
      NamesAtStep(a[0], a[1..], router);
      Regroup(if a[0].router == router then [a[0].name] else [], NamesAt(a[1..], router), NamesAt(b, router));
    }
  }

  lemma NamesAtStep(h: Home, rest: seq<Home>, router: nat)
    ensures NamesAt([h] + rest, router) == (if h.router == router then [h.name] else []) + NamesAt(rest, router)
  {
    assert ([h] + rest)[1..] == rest;
  }

  lemma Regroup<T>(a: seq<T>, b: seq<T>, c: seq<T>)
    ensures a + (b + c) == (a + b) + c
  {
  }

  lemma {:induction false} NamesAtNone(homes: seq<Home>, router: nat)
    requires forall i :: 0 <= i < |homes| ==> homes[i].router != router
    ensures NamesAt(homes, router) == []
  {
    if |homes| > 0 { NamesAtNone(homes[1..], router); }
  }

  lemma {:induction false} ControllersJoin(a: seq<Node>, b: seq<Node>)
    ensures ControllerNames(a + b) == ControllerNames(a) + ControllerNames(b)
  {
    if |a| == 0 {
      assert a + b == b;
    } else {
      ControllersJoin(a[1..], b);
      assert a + b == [a[0]] + (a[1..] + b) && a == [a[0]] + a[1..];
      ControllersStep(a[0], a[1..] + b);
      ControllersStep(a[0], a[1..]);
      Regroup(if a[0].Controller? then [a[0].name] else [], ControllerNames(a[1..]), ControllerNames(b));
    }
  }

  lemma ControllersStep(n: Node, rest: seq<Node>)
    ensures ControllerNames([n] + rest) == (if n.Controller? then [n.name] else []) + ControllerNames(rest)
  {
    assert ([n] + rest)[1..] == rest;
  }

  /** The routers of the homes in c are those of its clusters. */
  lemma HomesRange(c: Node, router: nat)
    requires c.Cluster?
    ensures forall i :: 0 <= i < |Homes(c, router)| ==> router <= Homes(c, router)[i].router < router + ClusterCount(c)
  {
    forall i | 0 <= i < |Homes(c, router)| ensures router <= Homes(c, router)[i].router < router + ClusterCount(c) { HomesHeld(c, router, i); }
  }

  /** The external links of a router are those of the controllers of its cluster, in the order of the nodes. */
  lemma {:induction false} HomesInOrder(c: Node, router: nat, x: nat)
    requires c.Cluster? && x < ClusterCount(c)
    ensures NamesAt(Homes(c, router), router + x) == ControllerNames(Preorder(c)[x].nodes)
    decreases c, 1, 0
  {
    if x == 0 {
      OwnInOrder(c, |c.nodes|, router);
      assert c.nodes[..|c.nodes|] == c.nodes;
    } else {
      SubInOrder(c, |c.nodes|, router, x);
    }
  }

  lemma {:induction false} OwnInOrder(c: Node, k: nat, router: nat)
    requires c.Cluster? && k <= |c.nodes|
    ensures NamesAt(HomesIn(c, k, router), router) == ControllerNames(c.nodes[..k])
  {
    if k > 0 {
      OwnInOrder(c, k - 1, router);
      OwnLinks(c, k, router);
    }
  }

  lemma {:induction false} SubInOrder(c: Node, k: nat, router: nat, x: nat)
    requires c.Cluster? && k <= |c.nodes| && 0 < x <= SubClusters(c, k)
    ensures NamesAt(HomesIn(c, k, router), router + x) == ControllerNames(PreorderIn(c, k)[x - 1].nodes)
    decreases c, 0, k
  {
    var before := SubClusters(c, k - 1);
    if x <= before {
      SubInOrder(c, k - 1, router, x);
      EarlierCluster(c, k, router, x);
    } else {
      LastCluster(c, k, router, x);
      HomesInOrder(c.nodes[k - 1], SubRouter(c, k - 1, router), x - 1 - before);
    }
  }

  /** The links to the cluster's own router go on with node k - 1 if that is a controller. */
  lemma OwnLinks(c: Node, k: nat, router: nat)
    requires c.Cluster? && 0 < k <= |c.nodes|
    requires NamesAt(HomesIn(c, k - 1, router), router) == ControllerNames(c.nodes[..k - 1])
    ensures NamesAt(HomesIn(c, k, router), router) == ControllerNames(c.nodes[..k])
  {
    var node, front := c.nodes[k - 1], HomesIn(c, k - 1, router);
    assert c.nodes[..k] == c.nodes[..k - 1] + [node];
    ControllersJoin(c.nodes[..k - 1], [node]);
    assert ControllerNames([node]) == if node.Controller? then [node.name] else [];
    if node.Cluster? {
      var sub := SubRouter(c, k - 1, router);
      HomesRange(node, sub);
      NamesAtNone(Homes(node, sub), router);
      NamesAtJoin(front, Homes(node, sub), router);
    } else {
      var home := Home(node.name, router, c.intBW, c.intLatency);
      assert NamesAt([home], router) == [node.name];
      NamesAtJoin(front, [home], router);
    }
  }

  /** Node k - 1 adds no links to the routers of the sub-clusters before it. */
  lemma EarlierCluster(c: Node, k: nat, router: nat, x: nat)
    requires c.Cluster? && 0 < k <= |c.nodes| && 0 < x <= SubClusters(c, k - 1)
    ensures NamesAt(HomesIn(c, k, router), router + x) == NamesAt(HomesIn(c, k - 1, router), router + x)
    ensures PreorderIn(c, k)[x - 1] == PreorderIn(c, k - 1)[x - 1]
  {
    var node, front := c.nodes[k - 1], HomesIn(c, k - 1, router);
    if node.Cluster? {
      var sub := SubRouter(c, k - 1, router);
      HomesRange(node, sub);
      NamesAtNone(Homes(node, sub), router + x);
      NamesAtJoin(front, Homes(node, sub), router + x);
    } else {
      var home := Home(node.name, router, c.intBW, c.intLatency);
      NamesAtNone([home], router + x);
      NamesAtJoin(front, [home], router + x);
    }
  }

  /** The links to the routers of node k - 1, a sub-cluster, are those made within it. */
  lemma LastCluster(c: Node, k: nat, router: nat, x: nat)
    requires c.Cluster? && 0 < k <= |c.nodes| && SubClusters(c, k - 1) < x <= SubClusters(c, k)
    ensures c.nodes[k - 1].Cluster?
    ensures NamesAt(HomesIn(c, k, router), router + x) == NamesAt(Homes(c.nodes[k - 1], SubRouter(c, k - 1, router)), router + x)
    ensures PreorderIn(c, k)[x - 1] == Preorder(c.nodes[k - 1])[x - 1 - SubClusters(c, k - 1)]
  {
    var front := HomesIn(c, k - 1, router);
    FrontRange(c, k - 1, router);
    NamesAtNone(front, router + x);
    NamesAtJoin(front, Homes(c.nodes[k - 1], SubRouter(c, k - 1, router)), router + x);
  }

  lemma FrontRange(c: Node, k: nat, router: nat)
    requires c.Cluster? && k <= |c.nodes|
    ensures forall i :: 0 <= i < |HomesIn(c, k, router)| ==> HomesIn(c, k, router)[i].router <= router + SubClusters(c, k)
  {
    forall i | 0 <= i < |HomesIn(c, k, router)| ensures HomesIn(c, k, router)[i].router <= router + SubClusters(c, k) {
      HomesInHeld(c, k, router, i);
    }
  }

  /**
   * Two links between a cluster and one of its nodes, a sub-cluster: there and back, with the sub-cluster's
   * external settings where they are set and the cluster's internal ones where not.
   */
  ghost predicate Joins(clusters: seq<Node>, there: Edge, back: Edge, first: nat)
  {
    && first <= there.src < first + |clusters| && first <= there.dst < first + |clusters|
    && there.src == back.dst && there.dst == back.src && there.bandwidth == back.bandwidth && there.latency == back.latency
    && var parent, child := clusters[there.src - first], clusters[there.dst - first];
       && parent.Cluster? && child.Cluster? && child in parent.nodes
       && (child.extBW != 0 ==> there.bandwidth == child.extBW)
       && (child.extBW == 0 ==> there.bandwidth == parent.intBW)
       && (child.extLatency != 0 ==> there.latency == child.extLatency)
       && (child.extLatency == 0 ==> there.latency == parent.intLatency)
  }

  lemma {:induction false} EdgesJoin(c: Node, router: nat, j: nat)
    requires c.Cluster? && 2 * j + 1 < |Edges(c, router)|
    ensures Joins(Preorder(c), Edges(c, router)[2 * j], Edges(c, router)[2 * j + 1], router)
    decreases c, 1, 0
  {
    EdgesInJoin(c, |c.nodes|, router, j);
  }

  lemma {:induction false} EdgesInJoin(c: Node, k: nat, router: nat, j: nat)
    requires c.Cluster? && k <= |c.nodes| && 2 * j + 1 < |EdgesIn(c, k, router)|
    ensures Joins([c] + PreorderIn(c, k), EdgesIn(c, k, router)[2 * j], EdgesIn(c, k, router)[2 * j + 1], router)
    decreases c, 0, k
  {
    var p := Locate(c, k, router, j);
    match p
    case InFront =>
      EdgesInJoin(c, k - 1, router, j);
      FrontJoins(c, k, router, j);
    case Inside(h) =>
      EdgesJoin(c.nodes[k - 1], SubRouter(c, k - 1, router), j - h);
      InnerJoins(c, k, router, j);
    case Last =>
      NewJoins(c, k, router);
  }

  lemma JoinsWithin(a: seq<Node>, b: seq<Node>, c: seq<Node>, there: Edge, back: Edge, first: nat)
    requires Joins(b, there, back, first + |a|)
    ensures Joins(a + b + c, there, back, first)
  {
    var all := a + b + c;
    assert all[there.src - first] == b[there.src - first - |a|] && all[there.dst - first] == b[there.dst - first - |a|];
  }

  lemma FrontJoins(c: Node, k: nat, router: nat, j: nat)
    requires c.Cluster? && 0 < k <= |c.nodes| && 2 * j + 1 < |EdgesIn(c, k - 1, router)|
    requires var front := EdgesIn(c, k - 1, router); Joins([c] + PreorderIn(c, k - 1), front[2 * j], front[2 * j + 1], router)
    ensures Joins([c] + PreorderIn(c, k), EdgesIn(c, k, router)[2 * j], EdgesIn(c, k, router)[2 * j + 1], router)
  {
    var front, clusters := EdgesIn(c, k - 1, router), [c] + PreorderIn(c, k - 1);
    var rest := if c.nodes[k - 1].Cluster? then Preorder(c.nodes[k - 1]) else [];
    JoinsWithin([], clusters, rest, front[2 * j], front[2 * j + 1], router);
    assert [] + clusters + rest == [c] + PreorderIn(c, k);
  }

  lemma InnerJoins(c: Node, k: nat, router: nat, j: nat)
    requires c.Cluster? && 0 < k <= |c.nodes| && c.nodes[k - 1].Cluster?
    requires var node, front, sub := c.nodes[k - 1], |EdgesIn(c, k - 1, router)|, SubRouter(c, k - 1, router);
             var inner := Edges(node, sub);
             && front <= 2 * j && 2 * j + 1 < front + |inner|
             && Joins(Preorder(node), inner[2 * j - front], inner[2 * j + 1 - front], sub)
    ensures 2 * j + 1 < |EdgesIn(c, k, router)|
    ensures Joins([c] + PreorderIn(c, k), EdgesIn(c, k, router)[2 * j], EdgesIn(c, k, router)[2 * j + 1], router)
  {
    var node, front, sub, clusters := c.nodes[k - 1], |EdgesIn(c, k - 1, router)|, SubRouter(c, k - 1, router), [c] + PreorderIn(c, k - 1);
    var inner := Edges(node, sub);
    JoinsWithin(clusters, Preorder(node), [], inner[2 * j - front], inner[2 * j + 1 - front], router);
    assert clusters + Preorder(node) + [] == [c] + PreorderIn(c, k);
  }

  /** The last pair of the first k nodes joins node k - 1 if that is a sub-cluster. */
  lemma NewJoins(c: Node, k: nat, router: nat)
    requires c.Cluster? && 0 < k <= |c.nodes| && c.nodes[k - 1].Cluster?
    ensures var edges := EdgesIn(c, k, router);
            |edges| >= 2 && Joins([c] + PreorderIn(c, k), edges[|edges| - 2], edges[|edges| - 1], router)
  {
    var node, sub := c.nodes[k - 1], SubRouter(c, k - 1, router);
    assert node in c.nodes && ([c] + PreorderIn(c, k))[sub - router] == node;
  }

  datatype Place = InFront | Inside(h: nat) | Last

  /** Where pair j of the first k nodes comes from: the nodes before, the inside of node k - 1, or the join of node k - 1. */
  lemma Locate(c: Node, k: nat, router: nat, j: nat) returns (p: Place)
    requires c.Cluster? && k <= |c.nodes| && 2 * j + 1 < |EdgesIn(c, k, router)|
    ensures k > 0 && (!p.InFront? ==> c.nodes[k - 1].Cluster?)
    ensures p.InFront? ==> 2 * j + 1 < |EdgesIn(c, k - 1, router)|
    ensures p.Inside? ==> |EdgesIn(c, k - 1, router)| == 2 * p.h && p.h <= j &&
                          2 * (j - p.h) + 1 < |Edges(c.nodes[k - 1], SubRouter(c, k - 1, router))|
    ensures p.Last? ==> 2 * j + 2 == |EdgesIn(c, k, router)|
    ensures !p.InFront? ==> |EdgesIn(c, k - 1, router)| <= 2 * j
  {
    var node, front := c.nodes[k - 1], |EdgesIn(c, k - 1, router)|;
    EdgesEven(c, k - 1, router);
    if 2 * j < front {
      p := InFront;
    } else {
      var sub := SubRouter(c, k - 1, router);
      EdgesEven(node, |node.nodes|, sub);
      p := if 2 * j < front + |Edges(node, sub)| then Inside(front / 2) else Last;
    }
  }

  lemma {:induction false} EdgesEven(c: Node, k: nat, router: nat)
    requires c.Cluster? && k <= |c.nodes|
    ensures |EdgesIn(c, k, router)| % 2 == 0
    decreases c, 0, k
  {
    if k > 0 {
      EdgesEven(c, k - 1, router);
      if c.nodes[k - 1].Cluster? { EdgesEven(c.nodes[k - 1], |c.nodes[k - 1].nodes|, SubRouter(c, k - 1, router)); }
    }
  }

  /** Every pair of links leads to a cluster all of whose sub-clusters are among those of the first k nodes. */
  lemma {:induction false} EdgeBlock(c: Node, k: nat, router: nat, j: nat)
    requires c.Cluster? && k <= |c.nodes| && 2 * j + 1 < |EdgesIn(c, k, router)|
    ensures Block(PreorderIn(c, k), EdgesIn(c, k, router)[2 * j].dst, router + 1, router + 1 + SubClusters(c, k))
    decreases c, k
  {
    var p := Locate(c, k, router, j);
    match p
    case InFront =>
      EdgeBlock(c, k - 1, router, j);
      FrontBlock(c, k, router, j);
    case Inside(h) =>
      EdgeBlock(c.nodes[k - 1], |c.nodes[k - 1].nodes|, SubRouter(c, k - 1, router), j - h);
      InnerBlock(c, k, router, j);
    case Last =>
      NewBlock(c, k, router);
  }

  /** The cluster that d leads to is one of the list, which starts at router first, and so are its sub-clusters. */
  ghost predicate Block(clusters: seq<Node>, d: nat, first: nat, end: nat)
  {
    first <= d < first + |clusters| && clusters[d - first].Cluster? && d + ClusterCount(clusters[d - first]) <= end
  }

  lemma FrontBlock(c: Node, k: nat, router: nat, j: nat)
    requires c.Cluster? && 0 < k <= |c.nodes| && 2 * j < |EdgesIn(c, k - 1, router)|
    requires Block(PreorderIn(c, k - 1), EdgesIn(c, k - 1, router)[2 * j].dst, router + 1, router + 1 + SubClusters(c, k - 1))
    ensures Block(PreorderIn(c, k), EdgesIn(c, k, router)[2 * j].dst, router + 1, router + 1 + SubClusters(c, k))
  {
    var d := EdgesIn(c, k - 1, router)[2 * j].dst;
    assert EdgesIn(c, k, router)[2 * j] == EdgesIn(c, k - 1, router)[2 * j];
    assert PreorderIn(c, k)[d - router - 1] == PreorderIn(c, k - 1)[d - router - 1];
  }

  lemma NewBlock(c: Node, k: nat, router: nat)
    requires c.Cluster? && 0 < k <= |c.nodes| && c.nodes[k - 1].Cluster?
    ensures var edges := EdgesIn(c, k, router);
            |edges| >= 2 && Block(PreorderIn(c, k), edges[|edges| - 2].dst, router + 1, router + 1 + SubClusters(c, k))
  {
    assert PreorderIn(c, k)[SubClusters(c, k - 1)] == c.nodes[k - 1];
  }

  lemma InnerBlock(c: Node, k: nat, router: nat, j: nat)
    requires c.Cluster? && 0 < k <= |c.nodes| && c.nodes[k - 1].Cluster?
    requires var node, front, sub := c.nodes[k - 1], |EdgesIn(c, k - 1, router)|, SubRouter(c, k - 1, router);
             && front <= 2 * j < front + |Edges(node, sub)|
             && Block(PreorderIn(node, |node.nodes|), Edges(node, sub)[2 * j - front].dst, sub + 1, sub + 1 + SubClusters(node, |node.nodes|))
    ensures 2 * j < |EdgesIn(c, k, router)|
    ensures Block(PreorderIn(c, k), EdgesIn(c, k, router)[2 * j].dst, router + 1, router + 1 + SubClusters(c, k))
  {
    var node, front, sub := c.nodes[k - 1], |EdgesIn(c, k - 1, router)|, SubRouter(c, k - 1, router);
    var d, clusters := Edges(node, sub)[2 * j - front].dst, PreorderIn(c, k - 1) + [node];
    assert EdgesIn(c, k, router)[2 * j] == Edges(node, sub)[2 * j - front];
    assert SubClusters(c, k) == SubClusters(c, k - 1) + 1 + SubClusters(node, |node.nodes|);
    BlockWithin(clusters, PreorderIn(node, |node.nodes|), d, router + 1, router + 1 + SubClusters(c, k));
    assert clusters + PreorderIn(node, |node.nodes|) == PreorderIn(c, k);
  }

  lemma BlockWithin(a: seq<Node>, b: seq<Node>, d: nat, first: nat, end: nat)
    requires Block(b, d, first + |a|, end)
    ensures Block(a + b, d, first, end)
  {
    assert (a + b)[d - first] == b[d - first - |a|];
  }

  /** Of two clusters, the first comes before the other with all its sub-clusters, or is one of the other's. */
  predicate Postordered(clusters: seq<Node>, d: nat, e: nat, first: nat)
  {
    && first <= d < first + |clusters| && first <= e < first + |clusters|
    && clusters[d - first].Cluster? && clusters[e - first].Cluster?
    && (d + ClusterCount(clusters[d - first]) <= e || e < d < e + ClusterCount(clusters[e - first]))
  }

  lemma PostorderedWithin(a: seq<Node>, b: seq<Node>, c: seq<Node>, d: nat, e: nat, first: nat)
    requires Postordered(b, d, e, first + |a|)
    ensures Postordered(a + b + c, d, e, first)
  {
    assert (a + b + c)[d - first] == b[d - first - |a|] && (a + b + c)[e - first] == b[e - first - |a|];
  }

  /** The pairs of links come in the order in which the recursion leaves the clusters they lead to. */
  lemma {:induction false} EdgesInOrder(c: Node, k: nat, router: nat, i: nat, j: nat)
    requires c.Cluster? && k <= |c.nodes| && i < j && 2 * j + 1 < |EdgesIn(c, k, router)|
    ensures Postordered(PreorderIn(c, k), EdgesIn(c, k, router)[2 * i].dst, EdgesIn(c, k, router)[2 * j].dst, router + 1)
    decreases c, k
  {
    var p := Locate(c, k, router, i);
    var q := Locate(c, k, router, j);
    match q
    case InFront =>
      EdgesInOrder(c, k - 1, router, i, j);
      FrontOrder(c, k, router, i, j);
    case Inside(h) =>
      if p.InFront? {
        FrontFirst(c, k, router, i, j);
      } else {
        EdgesInOrder(c.nodes[k - 1], |c.nodes[k - 1].nodes|, SubRouter(c, k - 1, router), i - h, j - h);
        InnerOrder(c, k, router, i, j);
      }
    case Last =>
      if p.InFront? { FrontFirst(c, k, router, i, j); } else { JoinLast(c, k, router, i); }
  }

  lemma FrontOrder(c: Node, k: nat, router: nat, i: nat, j: nat)
    requires c.Cluster? && 0 < k <= |c.nodes| && i < j && 2 * j + 1 < |EdgesIn(c, k - 1, router)|
    requires var front := EdgesIn(c, k - 1, router); Postordered(PreorderIn(c, k - 1), front[2 * i].dst, front[2 * j].dst, router + 1)
    ensures Postordered(PreorderIn(c, k), EdgesIn(c, k, router)[2 * i].dst, EdgesIn(c, k, router)[2 * j].dst, router + 1)
  {
    var front, clusters := EdgesIn(c, k - 1, router), PreorderIn(c, k - 1);
    var rest := if c.nodes[k - 1].Cluster? then Preorder(c.nodes[k - 1]) else [];
    PostorderedWithin([], clusters, rest, front[2 * i].dst, front[2 * j].dst, router + 1);
    assert [] + clusters + rest == PreorderIn(c, k);
  }

  lemma InnerOrder(c: Node, k: nat, router: nat, i: nat, j: nat)
    requires c.Cluster? && 0 < k <= |c.nodes| && c.nodes[k - 1].Cluster? && i < j
    requires var node, front, sub := c.nodes[k - 1], |EdgesIn(c, k - 1, router)|, SubRouter(c, k - 1, router);
             var inner := Edges(node, sub);
             && front <= 2 * i && 2 * j + 1 < front + |inner|
             && Postordered(PreorderIn(node, |node.nodes|), inner[2 * i - front].dst, inner[2 * j - front].dst, sub + 1)
    ensures 2 * j + 1 < |EdgesIn(c, k, router)|
    ensures Postordered(PreorderIn(c, k), EdgesIn(c, k, router)[2 * i].dst, EdgesIn(c, k, router)[2 * j].dst, router + 1)
  {
    var node, front, sub, clusters := c.nodes[k - 1], |EdgesIn(c, k - 1, router)|, SubRouter(c, k - 1, router), PreorderIn(c, k - 1);
    var inner := Edges(node, sub);
    PostorderedWithin(clusters + [node], PreorderIn(node, |node.nodes|), [], inner[2 * i - front].dst, inner[2 * j - front].dst, router + 1);
    assert clusters + [node] + PreorderIn(node, |node.nodes|) + [] == PreorderIn(c, k);
  }

  /** The pairs of the nodes before a sub-cluster come before its pairs. */
  lemma FrontFirst(c: Node, k: nat, router: nat, i: nat, j: nat)
    requires c.Cluster? && 0 < k <= |c.nodes| && c.nodes[k - 1].Cluster?
    requires 2 * i + 1 < |EdgesIn(c, k - 1, router)| <= 2 * j && 2 * j + 1 < |EdgesIn(c, k, router)|
    ensures Postordered(PreorderIn(c, k), EdgesIn(c, k, router)[2 * i].dst, EdgesIn(c, k, router)[2 * j].dst, router + 1)
  {
    var front, node, sub := EdgesIn(c, k - 1, router), c.nodes[k - 1], SubRouter(c, k - 1, router);
    EdgesEven(c, k - 1, router);
    EdgesEven(node, |node.nodes|, sub);
    EdgeBlock(c, k - 1, router, i);
    assert EdgesIn(c, k, router)[2 * i] == front[2 * i];
    LaterBlock(c, k, router, j);
  }

  /** The pairs of node k - 1, a sub-cluster, lead to clusters that are not before it. */
  lemma LaterBlock(c: Node, k: nat, router: nat, j: nat)
    requires c.Cluster? && 0 < k <= |c.nodes| && c.nodes[k - 1].Cluster?
    requires |EdgesIn(c, k - 1, router)| <= 2 * j && 2 * j + 1 < |EdgesIn(c, k, router)|
    ensures SubRouter(c, k - 1, router) <= EdgesIn(c, k, router)[2 * j].dst <= router + SubClusters(c, k)
  {
    var front, node, sub := |EdgesIn(c, k - 1, router)|, c.nodes[k - 1], SubRouter(c, k - 1, router);
    EdgesEven(c, k - 1, router);
    EdgesEven(node, |node.nodes|, sub);
    if 2 * j < front + |Edges(node, sub)| {
      EdgeBlock(node, |node.nodes|, sub, j - front / 2);
      assert EdgesIn(c, k, router)[2 * j] == Edges(node, sub)[2 * j - front];
    }
  }

  /** The pair that joins a sub-cluster comes after the pairs within it. */
  lemma JoinLast(c: Node, k: nat, router: nat, i: nat)
    requires c.Cluster? && 0 < k <= |c.nodes| && c.nodes[k - 1].Cluster?
    requires |EdgesIn(c, k - 1, router)| <= 2 * i && 2 * i + 3 < |EdgesIn(c, k, router)|
    ensures Postordered(PreorderIn(c, k), EdgesIn(c, k, router)[2 * i].dst, SubRouter(c, k - 1, router), router + 1)
  {
    var front, node, sub := EdgesIn(c, k - 1, router), c.nodes[k - 1], SubRouter(c, k - 1, router);
    EdgesEven(c, k - 1, router);
    EdgesEven(node, |node.nodes|, sub);
    EdgeBlock(node, |node.nodes|, sub, i - |front| / 2);
    assert EdgesIn(c, k, router)[2 * i] == Edges(node, sub)[2 * i - |front|];
  }

  lemma FreshAre(c: Node)
    requires c.Cluster?
    ensures LinkHomes(Make(c, FRESH).extLinks) == Homes(c, 0) && LinkEdges(Make(c, FRESH).intLinks) == Edges(c, 0)
  {
    MakeLinks(c, FRESH);
    assert LinkHomes(FRESH.extLinks) == [] && LinkEdges(FRESH.intLinks) == [];
  }

  /** The external links of the whole topology: what each router links, and with which settings. */
  lemma FreshHomes(c: Node)
    requires c.Cluster?
    ensures var homes := LinkHomes(Make(c, FRESH).extLinks);
            && (forall i :: 0 <= i < |homes| ==> HeldBy(Preorder(c), homes[i], 0))
            && (forall x :: 0 <= x < ClusterCount(c) ==> NamesAt(homes, x) == ControllerNames(Preorder(c)[x].nodes))
  {
    FreshAre(c);
    forall i | 0 <= i < |Homes(c, 0)| ensures HeldBy(Preorder(c), Homes(c, 0)[i], 0) { HomesHeld(c, 0, i); }
    forall x: nat | x < ClusterCount(c) ensures NamesAt(Homes(c, 0), x) == ControllerNames(Preorder(c)[x].nodes) { HomesInOrder(c, 0, x); }
  }

  /** The internal links of the whole topology: which clusters each pair joins, and with which settings. */
  lemma FreshEdges(c: Node, j: nat)
    requires c.Cluster? && j < ClusterCount(c) - 1
    ensures var edges := LinkEdges(Make(c, FRESH).intLinks);
            2 * j + 1 < |edges| && Joins(Preorder(c), edges[2 * j], edges[2 * j + 1], 0)
  {
    FreshTopology(c);
    FreshAre(c);
    EdgesJoin(c, 0, j);
  }
}
