/**
 Clusters of controllers and of other clusters: every cluster gets a router, its controllers are
 linked to that router and so are the routers of its sub-clusters.  Ids come from counters that
 all clusters share.
 */
module Cluster {

  datatype Node = Sub(cluster: Cluster) | Controller(id: nat)

  datatype Cluster = Cluster(nodes: seq<Node>, intBW: nat, extBW: nat, intLatency: nat, extLatency: nat)

  datatype IntLink = IntLink(id: nat, a: nat, b: nat, bandwidth: nat, latency: nat)

  datatype ExtLink = ExtLink(id: nat, node: nat, router: nat, bandwidth: nat, latency: nat)

  // The parameters of a link that nothing sets.
  const DEFAULT_BANDWIDTH := 16
  const DEFAULT_LATENCY := 1

  datatype Counters = Counters(routers: nat, intLinks: nat, extLinks: nat)

  datatype Net = Net(routers: seq<nat>, ints: seq<IntLink>, exts: seq<ExtLink>, next: Counters)

  // The first of two settings that is not zero, or else the default.
  function Setting(first: nat, second: nat, default_: nat): nat {
    if first != 0 then first else if second != 0 then second else default_
  }

  // Adding a built sub-cluster d to what is built of cluster c, whose router is root.
  function Join(net: Net, sub: Net, c: Cluster, d: Cluster, root: nat): Net {
    var link := IntLink(sub.next.intLinks, root, net.next.routers,
                        Setting(d.extBW, c.intBW, DEFAULT_BANDWIDTH), Setting(d.extLatency, c.intLatency, DEFAULT_LATENCY));
    Net(net.routers + sub.routers, net.ints + sub.ints + [link], net.exts + sub.exts, sub.next.(intLinks := sub.next.intLinks + 1))
  }

  function Attach(net: Net, c: Cluster, id: nat, root: nat): Net {
    var link := ExtLink(net.next.extLinks, id, root, Setting(c.intBW, 0, DEFAULT_BANDWIDTH), Setting(c.intLatency, 0, DEFAULT_LATENCY));
    net.(exts := net.exts + [link], next := net.next.(extLinks := net.next.extLinks + 1))
  }

  // What is built for the first k nodes of a cluster.
  function BuildNodes(c: Cluster, k: nat, s: Counters): Net
    requires k <= |c.nodes|
    decreases c, k
  {
    if k == 0 then Net([s.routers], [], [], s.(routers := s.routers + 1))
    else
      var net := BuildNodes(c, k - 1, s);
      match c.nodes[k - 1]
      case Sub(d) => Join(net, BuildNodes(d, |d.nodes|, net.next), c, d, s.routers)
      case Controller(i) => Attach(net, c, i, s.routers)
  }

  function Build(c: Cluster, s: Counters): Net {
    BuildNodes(c, |c.nodes|, s)
  }

  // The counters of the class, and the recursion that uses them.
  class Builder {
    var numRouters: nat
    var numIntLinks: nat
    var numExtLinks: nat

    ghost function Counts(): Counters
      reads this
    {
      Counters(numRouters, numIntLinks, numExtLinks)
    }

    constructor ()
      ensures Counts() == Counters(0, 0, 0)
    {
      numRouters, numIntLinks, numExtLinks := 0, 0, 0;
    }

    method MakeTopology(c: Cluster) returns (router: nat, routers: seq<nat>, intLinks: seq<IntLink>, extLinks: seq<ExtLink>)
      modifies this
      ensures Net(routers, intLinks, extLinks, Counts()) == Build(c, old(Counts()))
      ensures router == old(numRouters)
      decreases c
    {
      router := numRouters;
      numRouters := numRouters + 1;
      routers, intLinks, extLinks := [router], [], [];
      var i := 0;
      while i < |c.nodes|
        invariant i <= |c.nodes|
        invariant Net(routers, intLinks, extLinks, Counts()) == BuildNodes(c, i, old(Counts()))
      {
        match c.nodes[i] {
        case Sub(d) =>
          var subRouter, subRouters, subIntLinks, subExtLinks := MakeTopology(d);
          routers, intLinks, extLinks := routers + subRouters, intLinks + subIntLinks, extLinks + subExtLinks;
          var bandwidth, latency := DEFAULT_BANDWIDTH, DEFAULT_LATENCY;
          if d.extBW != 0 {
            bandwidth := d.extBW;
          } else if c.intBW != 0 {
            bandwidth := c.intBW;
          }
          if d.extLatency != 0 {
            latency := d.extLatency;
          } else if c.intLatency != 0 {
            latency := c.intLatency;
          }
          intLinks := intLinks + [IntLink(numIntLinks, router, subRouter, bandwidth, latency)];
          numIntLinks := numIntLinks + 1;
        case Controller(id) =>
          var bandwidth, latency := DEFAULT_BANDWIDTH, DEFAULT_LATENCY;
          if c.intBW != 0 {
            bandwidth := c.intBW;
          }
          if c.intLatency != 0 {
            latency := c.intLatency;
          }
          extLinks := extLinks + [ExtLink(numExtLinks, id, router, bandwidth, latency)];
          numExtLinks := numExtLinks + 1;
        }
        i := i + 1;
      }
    }
  }

  // ----- What a cluster contains -----

  function ClustersIn(c: Cluster, k: nat): nat
    requires k <= |c.nodes|
    decreases c, k
  {
    if k == 0 then 1
    else ClustersIn(c, k - 1) + match c.nodes[k - 1] case Sub(d) => ClustersIn(d, |d.nodes|) case Controller(_) => 0
  }

  // The length of a cluster: its own controllers, and the lengths of its sub-clusters.
  function Controllers(c: Cluster, k: nat): nat
    requires k <= |c.nodes|
    decreases c, k
  {
    if k == 0 then 0
    else Controllers(c, k - 1) + match c.nodes[k - 1] case Sub(d) => Controllers(d, |d.nodes|) case Controller(_) => 1
  }

  // A controller, its cluster, and the number of that cluster.
  datatype Member = Member(id: nat, cluster: Cluster, number: nat)

  // The controllers in the order of the text, when clusters are numbered from `first` in the
  // order in which they open.
  ghost function Members(c: Cluster, k: nat, first: nat): seq<Member>
    requires k <= |c.nodes|
    decreases c, k
  {
    if k == 0 then []
    else
      match c.nodes[k - 1]
      case Sub(d) => Members(c, k - 1, first) + Members(d, |d.nodes|, first + ClustersIn(c, k - 1))
      case Controller(i) => Members(c, k - 1, first) + [Member(i, c, first)]
  }

  // A cluster directly inside another one, and the numbers of the two.
  datatype Nesting = Nesting(outer: Cluster, inner: Cluster, outerNumber: nat, innerNumber: nat)

  // All of them, in the order in which the inner clusters close.
  ghost function Nestings(c: Cluster, k: nat, first: nat): seq<Nesting>
    requires k <= |c.nodes|
    decreases c, k
  {
    if k == 0 then []
    else
      match c.nodes[k - 1]
      case Sub(d) =>
        var number := first + ClustersIn(c, k - 1);
        Nestings(c, k - 1, first) + Nestings(d, |d.nodes|, number) + [Nesting(c, d, first, number)]
      case Controller(_) => Nestings(c, k - 1, first)
  }

  // ----- The network is a tree -----

  ghost predicate IsTree(net: Net, root: nat) {
    |net.ints| == |net.routers| - 1 &&
    (forall l :: l in net.ints ==> root <= l.a < l.b < net.next.routers) &&
    forall r :: root < r < net.next.routers ==> HasParent(net.ints, r)
  }

  ghost predicate HasParent(ints: seq<IntLink>, r: nat) {
    exists l :: l in ints && l.b == r
  }

  ghost predicate Counted(net: Net, s: Counters) {
    |net.routers| == net.next.routers - s.routers &&
    |net.ints| == net.next.intLinks - s.intLinks &&
    |net.exts| == net.next.extLinks - s.extLinks &&
    (forall k :: 0 <= k < |net.routers| ==> net.routers[k] == s.routers + k) &&
    (forall k :: 0 <= k < |net.ints| ==> net.ints[k].id == s.intLinks + k) &&
    (forall k :: 0 <= k < |net.exts| ==> net.exts[k].id == s.extLinks + k)
  }

  lemma JoinCounted(net: Net, sub: Net, c: Cluster, d: Cluster, s: Counters)
    requires Counted(net, s) && Counted(sub, net.next)
    ensures Counted(Join(net, sub, c, d, s.routers), s)
  {
  }

  // One router per cluster, one external link per controller, and consecutive ids.
  lemma {:induction false} BuildCounted(c: Cluster, k: nat, s: Counters)
    requires k <= |c.nodes|
    ensures Counted(BuildNodes(c, k, s), s)
    ensures |BuildNodes(c, k, s).routers| == ClustersIn(c, k) && |BuildNodes(c, k, s).exts| == Controllers(c, k)
    decreases c, k
  {
    hide Setting;
    if k > 0 {
      BuildCounted(c, k - 1, s);
      if c.nodes[k - 1].Sub? {
        hide Counted;
        var d := c.nodes[k - 1].cluster;
        var net := BuildNodes(c, k - 1, s);
        BuildCounted(d, |d.nodes|, net.next);
        JoinCounted(net, BuildNodes(d, |d.nodes|, net.next), c, d, s);
      }
    }
  }

  lemma {:induction false} BuildIsTree(c: Cluster, k: nat, s: Counters)
    requires k <= |c.nodes|
    ensures IsTree(BuildNodes(c, k, s), s.routers)
    decreases c, k
  {
    hide Join, Attach;
    if k > 0 {
      BuildIsTree(c, k - 1, s);
      if c.nodes[k - 1].Controller? {
        AttachTree(BuildNodes(c, k - 1, s), c, c.nodes[k - 1].id, s.routers);
      } else {
        hide IsTree;
        var d := c.nodes[k - 1].cluster;
        var net := BuildNodes(c, k - 1, s);
        var sub := BuildNodes(d, |d.nodes|, net.next);
        BuildIsTree(d, |d.nodes|, net.next);
        SomeRouter(c, k - 1, s);
        SomeRouter(d, |d.nodes|, net.next);
        Graft(net, sub, c, d, s.routers);
      }
    }
  }

  lemma {:induction false} SomeRouter(c: Cluster, k: nat, s: Counters)
    requires k <= |c.nodes|
    ensures BuildNodes(c, k, s).next.routers > s.routers
  {
    BuildCounted(c, k, s);
    SomeCluster(c, k);
  }

  lemma {:induction false} SomeCluster(c: Cluster, k: nat)
    requires k <= |c.nodes|
    ensures ClustersIn(c, k) >= 1
  {
    if k > 0 {
      SomeCluster(c, k - 1);
    }
  }

  lemma AttachTree(net: Net, c: Cluster, id: nat, root: nat)
    requires IsTree(net, root)
    ensures IsTree(Attach(net, c, id, root), root)
  {
    hide Setting, HasParent;
  }

  // A tree whose root becomes a child of the root of another tree.
  lemma Graft(net: Net, sub: Net, c: Cluster, d: Cluster, root: nat)
    requires IsTree(net, root) && IsTree(sub, net.next.routers)
    requires root < net.next.routers < sub.next.routers
    ensures IsTree(Join(net, sub, c, d, root), root)
  {
    hide Setting;
    var whole := Join(net, sub, c, d, root);
    var link := whole.ints[|whole.ints| - 1];
    forall r | root < r < whole.next.routers
      ensures HasParent(whole.ints, r)
    {
      if r < net.next.routers {
        assert HasParent(net.ints, r);
        var l :| l in net.ints && l.b == r;
        assert l in whole.ints;
      } else if r > net.next.routers {
        assert HasParent(sub.ints, r);
        var l :| l in sub.ints && l.b == r;
        assert l in whole.ints;
      } else {
        assert link in whole.ints;
      }
    }
  }

  // Routers one after the other, each linked to the one before.
  ghost predicate IsChain(links: seq<IntLink>, path: seq<nat>) {
    path != [] && forall k, k' :: 0 <= k < |path| && k' == k + 1 && k' < |path| ==> IsLinked(links, path[k], path[k'])
  }

  ghost predicate IsLinked(links: seq<IntLink>, u: nat, v: nat) {
    exists l :: l in links && l.a == u && l.b == v
  }

  // All routers are connected to the root.
  lemma {:induction false} Connected(net: Net, root: nat, r: nat) returns (path: seq<nat>)
    requires IsTree(net, root) && root <= r < net.next.routers
    ensures IsChain(net.ints, path) && path[0] == root && path[|path| - 1] == r
    decreases r
  {
    if r == root {
      path := [root];
    } else {
      assert HasParent(net.ints, r);
      var l :| l in net.ints && l.b == r;
      assert IsLinked(net.ints, l.a, r);
      var up := Connected(net, root, l.a);
      path := up + [r];
    }
  }

  // ----- What is linked to what, and with which parameters -----

  // x is the setting that overrides the other one, if it is given, else the other one, if that is.
  predicate Overrides(x: nat, over: nat, under: nat, default_: nat) {
    (over != 0 ==> x == over) && (over == 0 && under != 0 ==> x == under) && (over == 0 && under == 0 ==> x == default_)
  }

  // The routers of two nested clusters are linked; the external settings of the inner one override
  // the internal settings of the outer one.
  predicate LinksNested(l: IntLink, n: Nesting) {
    && l.a == n.outerNumber && l.b == n.innerNumber
    && Overrides(l.bandwidth, n.inner.extBW, n.outer.intBW, DEFAULT_BANDWIDTH)
    && Overrides(l.latency, n.inner.extLatency, n.outer.intLatency, DEFAULT_LATENCY)
  }

  // A controller is linked to the router of its own cluster, with its internal settings.
  predicate LinksMember(l: ExtLink, m: Member) {
    && l.node == m.id && l.router == m.number
    && Overrides(l.bandwidth, m.cluster.intBW, 0, DEFAULT_BANDWIDTH)
    && Overrides(l.latency, m.cluster.intLatency, 0, DEFAULT_LATENCY)
  }

  ghost predicate AllNested(ls: seq<IntLink>, ns: seq<Nesting>) {
    |ls| == |ns| && forall k :: 0 <= k < |ls| ==> LinksNested(ls[k], ns[k])
  }

  ghost predicate AllMembers(ls: seq<ExtLink>, ms: seq<Member>) {
    |ls| == |ms| && forall k :: 0 <= k < |ls| ==> LinksMember(ls[k], ms[k])
  }

  lemma NestedConcat(a: seq<IntLink>, ns: seq<Nesting>, b: seq<IntLink>, ms: seq<Nesting>)
    requires AllNested(a, ns) && AllNested(b, ms)
    ensures AllNested(a + b, ns + ms)
  {
    hide LinksNested;
  }

  lemma MembersConcat(a: seq<ExtLink>, ns: seq<Member>, b: seq<ExtLink>, ms: seq<Member>)
    requires AllMembers(a, ns) && AllMembers(b, ms)
    ensures AllMembers(a + b, ns + ms)
  {
    hide LinksMember;
  }

  // The links built are those of the nested clusters and those of the controllers, and no others.
  lemma {:induction false} BuildMembers(c: Cluster, k: nat, s: Counters)
    requires k <= |c.nodes|
    ensures AllNested(BuildNodes(c, k, s).ints, Nestings(c, k, s.routers))
    ensures AllMembers(BuildNodes(c, k, s).exts, Members(c, k, s.routers))
    decreases c, k
  {
    hide AllNested, AllMembers;
    if k == 0 {
      NoLinks();
    } else {
      var net := BuildNodes(c, k - 1, s);
      BuildMembers(c, k - 1, s);
      NextRouter(c, k - 1, s);
      var ns, ms := Nestings(c, k - 1, s.routers), Members(c, k - 1, s.routers);
      if c.nodes[k - 1].Sub? {
        var d := c.nodes[k - 1].cluster;
        var sub, number := BuildNodes(d, |d.nodes|, net.next), net.next.routers;
        BuildMembers(d, |d.nodes|, net.next);
        var whole := Join(net, sub, c, d, s.routers);
        var link := whole.ints[|whole.ints| - 1];
        OneNested(link, Nesting(c, d, s.routers, number));
        NestedConcat(net.ints, ns, sub.ints, Nestings(d, |d.nodes|, number));
        NestedConcat(net.ints + sub.ints, ns + Nestings(d, |d.nodes|, number), [link], [Nesting(c, d, s.routers, number)]);
        MembersConcat(net.exts, ms, sub.exts, Members(d, |d.nodes|, number));
      } else {
        var id := c.nodes[k - 1].id;
        var exts := Attach(net, c, id, s.routers).exts;
        OneMember(exts[|exts| - 1], Member(id, c, s.routers));
        MembersConcat(net.exts, ms, [exts[|exts| - 1]], [Member(id, c, s.routers)]);
      }
    }
  }

  lemma NoLinks()
    ensures AllNested([], []) && AllMembers([], [])
  {
  }

  lemma OneNested(l: IntLink, n: Nesting)
    requires LinksNested(l, n)
    ensures AllNested([l], [n])
  {
  }

  lemma OneMember(l: ExtLink, m: Member)
    requires LinksMember(l, m)
    ensures AllMembers([l], [m])
  {
  }

  lemma {:induction false} NextRouter(c: Cluster, k: nat, s: Counters)
    requires k <= |c.nodes|
    ensures BuildNodes(c, k, s).next.routers == s.routers + ClustersIn(c, k)
  {
    BuildCounted(c, k, s);
  }

  // The network of a cluster: a tree with one router per cluster and one external link per
  // controller, all ids consecutive.
  lemma {:induction false} ClusterIsTree(c: Cluster, s: Counters)
    ensures IsTree(Build(c, s), s.routers) && Counted(Build(c, s), s)
    ensures |Build(c, s).routers| == ClustersIn(c, |c.nodes|)
    ensures |Build(c, s).ints| == ClustersIn(c, |c.nodes|) - 1
    ensures |Build(c, s).exts| == Controllers(c, |c.nodes|)
  {
    BuildCounted(c, |c.nodes|, s);
    BuildIsTree(c, |c.nodes|, s);
  }
}
