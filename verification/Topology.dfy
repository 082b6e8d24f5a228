/**
 From the links of a builder to the routing of messages: the map of one-way links, and what the
 cheapest paths of a mesh or a torus come to when the routing is computed from that map.
 */
module Topology {
  import opened Network
  import opened Grid
  import opened ShortestPath
  import opened Routing
  import opened Delivery
  import Mesh
  import Torus

  // ----- The map of one-way links -----

  // With m controllers, controller k is switch k where it sends and switch m + k where it
  // receives, and router r is switch 2 * m + r.
  predicate IsExtKey(m: nat, e: ExtLink, key: (nat, nat)) {
    key == (e.node.id, 2 * m + e.router) || key == (2 * m + e.router, m + e.node.id)
  }

  predicate IsIntKey(m: nat, l: IntLink, key: (nat, nat)) {
    key == (2 * m + l.a, 2 * m + l.b) || key == (2 * m + l.b, 2 * m + l.a)
  }

  // The last of the links that join the two switches of the key.
  ghost predicate IsLast(m: nat, intLinks: seq<IntLink>, key: (nat, nat), k: nat) {
    k < |intLinks| && IsIntKey(m, intLinks[k], key) && forall j :: k < j < |intLinks| ==> !IsIntKey(m, intLinks[j], key)
  }

  // Every one-way link comes from a link of the builder, of several the last.
  ghost predicate Explained(m: nat, extLinks: seq<ExtLink>, intLinks: seq<IntLink>, key: (nat, nat), link: Link) {
    ((forall l :: l in intLinks ==> !IsIntKey(m, l, key)) && exists e :: e in extLinks && IsExtKey(m, e, key) && link == Link(1, 1)) ||
    (exists k: nat :: IsLast(m, intLinks, key, k) && link == Link(intLinks[k].weight, intLinks[k].latency))
  }

  ghost predicate IsLinkMap(m: nat, extLinks: seq<ExtLink>, intLinks: seq<IntLink>, links: LinkMap) {
    (forall key: (nat, nat) :: key in links ==> Explained(m, extLinks, intLinks, key, links[key])) &&
    (forall e, key: (nat, nat) :: e in extLinks && IsExtKey(m, e, key) ==> key in links) &&
    (forall l, key: (nat, nat) :: l in intLinks && IsIntKey(m, l, key) ==> key in links)
  }

  method BuildLinkMap(m: nat, extLinks: seq<ExtLink>, intLinks: seq<IntLink>) returns (links: LinkMap)
    ensures IsLinkMap(m, extLinks, intLinks, links)
  {
    hide IsLinkMap;
    links := map[];
    NoLinks(m);
    assert extLinks[..0] == [] && intLinks[..0] == [];
    var i := 0;
    while i < |extLinks|
      invariant i <= |extLinks| && IsLinkMap(m, extLinks[..i], [], links)
    {
      var e := extLinks[i];
      MoreExt(m, extLinks[..i], e, links);
      assert extLinks[..i] + [e] == extLinks[..i + 1];
      links := links[(e.node.id, 2 * m + e.router) := Link(1, 1)];
      links := links[(2 * m + e.router, m + e.node.id) := Link(1, 1)];
      i := i + 1;
    }
    assert extLinks[..i] == extLinks;
    i := 0;
    while i < |intLinks|
      invariant i <= |intLinks| && IsLinkMap(m, extLinks, intLinks[..i], links)
    {
      var l := intLinks[i];
      MoreInt(m, extLinks, intLinks[..i], l, links);
      assert intLinks[..i] + [l] == intLinks[..i + 1];
      links := links[(2 * m + l.a, 2 * m + l.b) := Link(l.weight, l.latency)];
      links := links[(2 * m + l.b, 2 * m + l.a) := Link(l.weight, l.latency)];
      i := i + 1;
    }
    assert intLinks[..i] == intLinks;
  }

  lemma NoLinks(m: nat)
    ensures IsLinkMap(m, [], [], map[])
  {
  }

  lemma MoreExt(m: nat, extLinks: seq<ExtLink>, e: ExtLink, links: LinkMap)
    requires IsLinkMap(m, extLinks, [], links)
    ensures var links' := links[(e.node.id, 2 * m + e.router) := Link(1, 1)][(2 * m + e.router, m + e.node.id) := Link(1, 1)];
            IsLinkMap(m, extLinks + [e], [], links')
  {
    var links': LinkMap := links[(e.node.id, 2 * m + e.router) := Link(1, 1)][(2 * m + e.router, m + e.node.id) := Link(1, 1)];
    assert e in extLinks + [e];
    forall key: (nat, nat) | key in links'
      ensures Explained(m, extLinks + [e], [], key, links'[key])
    {
      if !IsExtKey(m, e, key) {
        assert Explained(m, extLinks, [], key, links[key]);
        var x :| x in extLinks && IsExtKey(m, x, key) && links[key] == Link(1, 1);
        assert x in extLinks + [e];
      }
    }
  }

  lemma ExplainedBefore(m: nat, extLinks: seq<ExtLink>, intLinks: seq<IntLink>, l: IntLink, key: (nat, nat), link: Link)
    requires Explained(m, extLinks, intLinks, key, link) && !IsIntKey(m, l, key)
    ensures Explained(m, extLinks, intLinks + [l], key, link)
  {
    var more := intLinks + [l];
    if k: nat :| IsLast(m, intLinks, key, k) && link == Link(intLinks[k].weight, intLinks[k].latency) {
      assert IsLast(m, more, key, k) && more[k] == intLinks[k];
    }
  }

  lemma ExplainedNow(m: nat, extLinks: seq<ExtLink>, intLinks: seq<IntLink>, l: IntLink, key: (nat, nat))
    requires IsIntKey(m, l, key)
    ensures Explained(m, extLinks, intLinks + [l], key, Link(l.weight, l.latency))
  {
    assert IsLast(m, intLinks + [l], key, |intLinks|);
  }

  lemma MoreInt(m: nat, extLinks: seq<ExtLink>, intLinks: seq<IntLink>, l: IntLink, links: LinkMap)
    requires IsLinkMap(m, extLinks, intLinks, links)
    ensures var x := Link(l.weight, l.latency);
            IsLinkMap(m, extLinks, intLinks + [l], links[(2 * m + l.a, 2 * m + l.b) := x][(2 * m + l.b, 2 * m + l.a) := x])
  {
    hide Explained;
    var x := Link(l.weight, l.latency);
    var links': LinkMap := links[(2 * m + l.a, 2 * m + l.b) := x][(2 * m + l.b, 2 * m + l.a) := x];
    var more := intLinks + [l];
    assert forall key: (nat, nat) :: key in links' <==> key in links || IsIntKey(m, l, key);
    assert forall key: (nat, nat) :: key in links' ==> links'[key] == if IsIntKey(m, l, key) then x else links[key];
    forall key: (nat, nat) | key in links'
      ensures Explained(m, extLinks, more, key, links'[key])
    {
      if IsIntKey(m, l, key) {
        ExplainedNow(m, extLinks, intLinks, l, key);
      } else {
        ExplainedBefore(m, extLinks, intLinks, l, key, links[key]);
      }
    }
    forall y, key: (nat, nat) | y in more && IsIntKey(m, y, key)
      ensures key in links'
    {
      assert y in intLinks || y == l;
    }
  }

  lemma Origin(m: nat, extLinks: seq<ExtLink>, intLinks: seq<IntLink>, key: (nat, nat), link: Link)
    requires Explained(m, extLinks, intLinks, key, link)
    ensures (exists e :: e in extLinks && IsExtKey(m, e, key) && link == Link(1, 1)) ||
            (exists l :: l in intLinks && IsIntKey(m, l, key) && link == Link(l.weight, l.latency))
  {
    if k: nat :| IsLast(m, intLinks, key, k) && link == Link(intLinks[k].weight, intLinks[k].latency) {
      assert intLinks[k] in intLinks;
    }
  }

  // ----- Cheapest paths of a grid network -----

  // The network of a mesh or torus.
  ghost predicate GridNetwork(wrap: bool, rows: nat, cols: nat, m: nat, extLinks: seq<ExtLink>, intLinks: seq<IntLink>, links: LinkMap) {
    IsGrid(wrap, rows, cols, intLinks) && IsLinkMap(m, extLinks, intLinks, links) &&
    (forall e :: e in extLinks ==> e.node.id < m && e.router < rows * cols) &&
    forall e, f :: e in extLinks && f in extLinks && e.node.id == f.node.id ==> e == f
  }

  ghost predicate SitsAt(m: nat, e: ExtLink, s: nat) {
    s == e.node.id || s == m + e.node.id
  }

  // How far controller or router s is from where the controller of f receives.
  ghost function Potential(wrap: bool, rows: nat, cols: nat, m: nat, extLinks: seq<ExtLink>, f: ExtLink, s: nat): nat
    requires f.router < rows * cols && forall e :: e in extLinks ==> e.router < rows * cols
  {
    if s == m + f.node.id then 0
    else if 2 * m <= s then
      if s - 2 * m < rows * cols then Distance(wrap, rows, cols, s - 2 * m, f.router) + 1 else 0
    else if exists e :: e in extLinks && SitsAt(m, e, s) then
      var e :| e in extLinks && SitsAt(m, e, s);
      Distance(wrap, rows, cols, e.router, f.router) + if s < m then 2 else 1
    else 0
  }

  lemma PotentialOf(wrap: bool, rows: nat, cols: nat, m: nat, extLinks: seq<ExtLink>, intLinks: seq<IntLink>, links: LinkMap, f: ExtLink, e: ExtLink)
    requires GridNetwork(wrap, rows, cols, m, extLinks, intLinks, links) && f in extLinks && e in extLinks
    ensures Potential(wrap, rows, cols, m, extLinks, f, e.node.id) == Distance(wrap, rows, cols, e.router, f.router) + 2
    ensures Potential(wrap, rows, cols, m, extLinks, f, m + e.node.id) == if e == f then 0 else Distance(wrap, rows, cols, e.router, f.router) + 1
  {
    hide Distance, IsGrid, IsLinkMap;
    assert SitsAt(m, e, e.node.id) && SitsAt(m, e, m + e.node.id);
    forall x | x in extLinks && (SitsAt(m, x, e.node.id) || SitsAt(m, x, m + e.node.id))
      ensures x == e
    {
    }
  }

  // Costs are only told apart up to the weight of a missing link.
  function Capped(cost: nat): nat {
    if cost < INFINITE_LATENCY then cost else INFINITE_LATENCY
  }

  // No one-way link leads closer by more than its weight.
  lemma PotentialStep(wrap: bool, rows: nat, cols: nat, m: nat, extLinks: seq<ExtLink>, intLinks: seq<IntLink>, links: LinkMap, f: ExtLink, a: nat, b: nat)
    requires GridNetwork(wrap, rows, cols, m, extLinks, intLinks, links) && f in extLinks
    ensures Capped(Potential(wrap, rows, cols, m, extLinks, f, a)) <=
            WeightOf(links, a, b) + Capped(Potential(wrap, rows, cols, m, extLinks, f, b))
  {
    hide Distance, IsGrid, Potential;
    if (a, b) in links {
      Origin(m, extLinks, intLinks, (a, b), links[(a, b)]);
      if e :| e in extLinks && IsExtKey(m, e, (a, b)) && links[(a, b)] == Link(1, 1) {
        ExtStep(wrap, rows, cols, m, extLinks, intLinks, links, f, e, a, b);
      } else {
        var l :| l in intLinks && IsIntKey(m, l, (a, b)) && links[(a, b)] == Link(l.weight, l.latency);
        IntStep(wrap, rows, cols, m, extLinks, intLinks, links, f, l, a, b);
      }
    }
  }

  lemma ExtStep(wrap: bool, rows: nat, cols: nat, m: nat, extLinks: seq<ExtLink>, intLinks: seq<IntLink>, links: LinkMap,
                f: ExtLink, e: ExtLink, a: nat, b: nat)
    requires GridNetwork(wrap, rows, cols, m, extLinks, intLinks, links) && f in extLinks
    requires e in extLinks && IsExtKey(m, e, (a, b))
    ensures Potential(wrap, rows, cols, m, extLinks, f, a) <= 1 + Potential(wrap, rows, cols, m, extLinks, f, b)
  {
    hide Distance, IsGrid, Potential, IsLinkMap;
    PotentialOf(wrap, rows, cols, m, extLinks, intLinks, links, f, e);
    PotentialAtRouter(wrap, rows, cols, m, extLinks, f, e.router);
    NoDistance(wrap, rows, cols, e.router);
  }

  lemma IntStep(wrap: bool, rows: nat, cols: nat, m: nat, extLinks: seq<ExtLink>, intLinks: seq<IntLink>, links: LinkMap,
                f: ExtLink, l: IntLink, a: nat, b: nat)
    requires GridNetwork(wrap, rows, cols, m, extLinks, intLinks, links) && f in extLinks
    requires l in intLinks && IsIntKey(m, l, (a, b))
    ensures Potential(wrap, rows, cols, m, extLinks, f, a) <= l.weight + Potential(wrap, rows, cols, m, extLinks, f, b)
  {
    hide Distance, IsGrid, Potential, IsLinkMap;
    LinkNear(wrap, rows, cols, intLinks, l, f.router);
    PotentialAtRouter(wrap, rows, cols, m, extLinks, f, l.a);
    PotentialAtRouter(wrap, rows, cols, m, extLinks, f, l.b);
  }

  lemma PotentialAtRouter(wrap: bool, rows: nat, cols: nat, m: nat, extLinks: seq<ExtLink>, f: ExtLink, r: nat)
    requires f.router < rows * cols && f.node.id < m && r < rows * cols && forall e :: e in extLinks ==> e.router < rows * cols
    ensures Potential(wrap, rows, cols, m, extLinks, f, 2 * m + r) == Distance(wrap, rows, cols, r, f.router) + 1
  {
    hide Distance;
  }

  lemma {:induction false} WalkBound(wrap: bool, rows: nat, cols: nat, m: nat, extLinks: seq<ExtLink>, intLinks: seq<IntLink>, links: LinkMap,
                                     f: ExtLink, n: nat, w: seq<nat>)
    requires GridNetwork(wrap, rows, cols, m, extLinks, intLinks, links) && f in extLinks
    requires w != [] && (forall k :: 0 <= k < |w| ==> w[k] < n) && w[|w| - 1] == m + f.node.id
    ensures Capped(Potential(wrap, rows, cols, m, extLinks, f, w[0])) <= Along(Weights(links, n), w)
    decreases |w|
  {
    hide GridNetwork;
    RoutersFit(wrap, rows, cols, m, extLinks, intLinks, links);
    if |w| > 1 {
      WalkBound(wrap, rows, cols, m, extLinks, intLinks, links, f, n, w[1..]);
      PotentialStep(wrap, rows, cols, m, extLinks, intLinks, links, f, w[0], w[1]);
    }
  }

  lemma RoutersFit(wrap: bool, rows: nat, cols: nat, m: nat, extLinks: seq<ExtLink>, intLinks: seq<IntLink>, links: LinkMap)
    requires GridNetwork(wrap, rows, cols, m, extLinks, intLinks, links)
    ensures forall e :: e in extLinks ==> e.node.id < m && e.router < rows * cols
  {
  }

  // Links between the same two routers have the same weight.
  lemma SameWeight(wrap: bool, rows: nat, cols: nat, links: seq<IntLink>, l: IntLink, l': IntLink)
    requires IsGrid(wrap, rows, cols, links) && l in links && l' in links && Joins(l', l.a, l.b) && l.a != l.b
    ensures l.weight == l'.weight
  {
    hide IsGrid;
    var x := Kind(wrap, rows, cols, links, l);
    var x' := Kind(wrap, rows, cols, links, l');
    if l.a / cols == l.b / cols && l.a % cols == l.b % cols {
      SameParts(l.a, l.b, cols);
    }
  }

  lemma SameParts(a: nat, b: nat, n: nat)
    requires n > 0 && a / n == b / n && a % n == b % n
    ensures a == b
  {
    assert a == a / n * n + a % n && b == b / n * n + b % n;
  }

  // A row link stays in its row, a column link in its column.
  lemma Kind(wrap: bool, rows: nat, cols: nat, links: seq<IntLink>, l: IntLink) returns (sameRow: bool)
    requires IsGrid(wrap, rows, cols, links) && l in links
    ensures cols > 0 && l.weight == if sameRow then 1 else 2
    ensures if sameRow then l.a / cols == l.b / cols else l.a % cols == l.b % cols
  {
    if r: nat, c: nat :| r < rows && IsRowLink(wrap, cols, l, r, c) {
      sameRow := true;
      IdParts(cols, r, c);
      IdParts(cols, r, Succ(cols, c));
    } else {
      var r: nat, c: nat :| IsColumnLink(wrap, rows, cols, l, r, c);
      sameRow := false;
      IdParts(cols, r, c);
      IdParts(cols, Succ(rows, r), c);
    }
  }

  // The weight between two routers that a link joins is the weight of that link.
  lemma IntWeight(wrap: bool, rows: nat, cols: nat, m: nat, extLinks: seq<ExtLink>, intLinks: seq<IntLink>, links: LinkMap, h: Hop)
    requires GridNetwork(wrap, rows, cols, m, extLinks, intLinks, links) && h.link in intLinks && From(h) != To(h)
    ensures WeightOf(links, 2 * m + From(h), 2 * m + To(h)) == h.link.weight
  {
    hide IsGrid;
    var key := (2 * m + From(h), 2 * m + To(h));
    assert IsIntKey(m, h.link, key);
    Origin(m, extLinks, intLinks, key, links[key]);
    var l :| l in intLinks && IsIntKey(m, l, key) && links[key] == Link(l.weight, l.latency);
    SameWeight(wrap, rows, cols, intLinks, h.link, l);
  }

  lemma ExtWeight(wrap: bool, rows: nat, cols: nat, m: nat, extLinks: seq<ExtLink>, intLinks: seq<IntLink>, links: LinkMap, e: ExtLink)
    requires GridNetwork(wrap, rows, cols, m, extLinks, intLinks, links) && e in extLinks
    ensures WeightOf(links, e.node.id, 2 * m + e.router) == 1 && WeightOf(links, 2 * m + e.router, m + e.node.id) == 1
  {
    hide IsGrid;
    var key, key' := (e.node.id, 2 * m + e.router), (2 * m + e.router, m + e.node.id);
    assert IsExtKey(m, e, key) && IsExtKey(m, e, key');
    Origin(m, extLinks, intLinks, key, links[key]);
    Origin(m, extLinks, intLinks, key', links[key']);
  }

  // From router u there is a walk to where the controller of f receives.
  lemma {:induction false} WalkFrom(wrap: bool, rows: nat, cols: nat, m: nat, extLinks: seq<ExtLink>, intLinks: seq<IntLink>, links: LinkMap,
                                    f: ExtLink, n: nat, u: nat) returns (w: seq<nat>)
    requires GridNetwork(wrap, rows, cols, m, extLinks, intLinks, links) && f in extLinks
    requires 2 * m + rows * cols <= n && u < rows * cols
    ensures f.router < rows * cols && IsWalk(n, w, 2 * m + u, m + f.node.id)
    ensures Along(Weights(links, n), w) == Distance(wrap, rows, cols, u, f.router) + 1
    decreases Distance(wrap, rows, cols, u, f.router)
  {
    hide Distance, IsGrid, IsLinkMap;
    if u == f.router {
      ExtWeight(wrap, rows, cols, m, extLinks, intLinks, links, f);
      NoDistance(wrap, rows, cols, u);
      w := [2 * m + u, m + f.node.id];
      assert Along(Weights(links, n), w[1..]) == 0;
    } else {
      var h := Closer(wrap, rows, cols, intLinks, u, f.router);
      PositiveWeight(wrap, rows, cols, intLinks, h.link);
      IntWeight(wrap, rows, cols, m, extLinks, intLinks, links, h);
      var rest := WalkFrom(wrap, rows, cols, m, extLinks, intLinks, links, f, n, To(h));
      Prepend(Weights(links, n), rest, 2 * m + u, 2 * m + To(h), m + f.node.id);
      w := [2 * m + u] + rest;
    }
  }

  lemma WeightCap(wrap: bool, rows: nat, cols: nat, m: nat, extLinks: seq<ExtLink>, intLinks: seq<IntLink>, links: LinkMap, a: nat, b: nat)
    requires GridNetwork(wrap, rows, cols, m, extLinks, intLinks, links)
    ensures WeightOf(links, a, b) <= INFINITE_LATENCY
  {
    hide IsGrid;
    if (a, b) in links {
      Origin(m, extLinks, intLinks, (a, b), links[(a, b)]);
      if l :| l in intLinks && IsIntKey(m, l, (a, b)) && links[(a, b)] == Link(l.weight, l.latency) {
        var sameRow := Kind(wrap, rows, cols, intLinks, l);
      }
    }
  }

  // The cheapest path from a router to a controller costs the distance of the routers plus 1.
  lemma RouterDistance(wrap: bool, rows: nat, cols: nat, m: nat, extLinks: seq<ExtLink>, intLinks: seq<IntLink>, links: LinkMap,
                       n: nat, dist: Matrix, lat: Matrix, inter: Matrix, u: nat, f: ExtLink)
    requires GridNetwork(wrap, rows, cols, m, extLinks, intLinks, links) && u < rows * cols && f in extLinks
    requires n == 2 * m + rows * cols && Solved(Weights(links, n), Latencies(links, n), dist, lat, inter)
    ensures f.router < rows * cols && Square(dist, n) && f.node.id < m
    ensures dist[2 * m + u][m + f.node.id] == Capped(1 + Distance(wrap, rows, cols, u, f.router))
  {
    hide Solved, Distance, IsGrid, IsLinkMap, Potential;
    var weights, latencies := Weights(links, n), Latencies(links, n);
    Fits(weights, latencies, dist, lat, inter);
    var best := CheapestWalk(weights, latencies, dist, lat, inter, 2 * m + u, m + f.node.id);
    WalkBound(wrap, rows, cols, m, extLinks, intLinks, links, f, n, best);
    PotentialAtRouter(wrap, rows, cols, m, extLinks, f, u);
    var w := WalkFrom(wrap, rows, cols, m, extLinks, intLinks, links, f, n, u);
    Least(weights, latencies, dist, lat, inter, w, 2 * m + u, m + f.node.id);
    WeightCap(wrap, rows, cols, m, extLinks, intLinks, links, 2 * m + u, m + f.node.id);
  }

  // The cheapest path between two controllers costs the distance of their routers plus 2, up to
  // the weight of a missing link.
  lemma ControllerDistance(wrap: bool, rows: nat, cols: nat, m: nat, extLinks: seq<ExtLink>, intLinks: seq<IntLink>, links: LinkMap,
                           n: nat, dist: Matrix, lat: Matrix, inter: Matrix, e: ExtLink, f: ExtLink)
    requires GridNetwork(wrap, rows, cols, m, extLinks, intLinks, links) && e in extLinks && f in extLinks
    requires n == 2 * m + rows * cols && Solved(Weights(links, n), Latencies(links, n), dist, lat, inter)
    ensures e.router < rows * cols && f.router < rows * cols && Square(dist, n) && e.node.id < m && f.node.id < m
    ensures dist[e.node.id][m + f.node.id] == Capped(2 + Distance(wrap, rows, cols, e.router, f.router))
  {
    hide Solved, Distance, IsGrid, IsLinkMap, Potential;
    var weights, latencies := Weights(links, n), Latencies(links, n);
    Fits(weights, latencies, dist, lat, inter);
    var best := CheapestWalk(weights, latencies, dist, lat, inter, e.node.id, m + f.node.id);
    WalkBound(wrap, rows, cols, m, extLinks, intLinks, links, f, n, best);
    PotentialOf(wrap, rows, cols, m, extLinks, intLinks, links, f, e);
    var w := WalkFrom(wrap, rows, cols, m, extLinks, intLinks, links, f, n, e.router);
    ExtWeight(wrap, rows, cols, m, extLinks, intLinks, links, e);
    Prepend(weights, w, e.node.id, 2 * m + e.router, m + f.node.id);
    Least(weights, latencies, dist, lat, inter, [e.node.id] + w, e.node.id, m + f.node.id);
    WeightCap(wrap, rows, cols, m, extLinks, intLinks, links, e.node.id, m + f.node.id);
  }

  // The switches of the network are its controllers, twice, and its routers.
  lemma SwitchesOf(wrap: bool, rows: nat, cols: nat, m: nat, extLinks: seq<ExtLink>, intLinks: seq<IntLink>, links: LinkMap, n: nat)
    requires GridNetwork(wrap, rows, cols, m, extLinks, intLinks, links) && extLinks != [] && IsSwitchCount(links, n)
    ensures n == 2 * m + rows * cols
  {
    hide GridNetwork;
    var key := LastSwitch(wrap, rows, cols, m, extLinks, intLinks, links);
    forall k: (nat, nat) | k in links
      ensures k.0 < 2 * m + rows * cols && k.1 < 2 * m + rows * cols
    {
      KeyBound(wrap, rows, cols, m, extLinks, intLinks, links, k);
    }
  }

  // Some link touches the last router.
  lemma LastSwitch(wrap: bool, rows: nat, cols: nat, m: nat, extLinks: seq<ExtLink>, intLinks: seq<IntLink>, links: LinkMap)
    returns (key: (nat, nat))
    requires GridNetwork(wrap, rows, cols, m, extLinks, intLinks, links) && extLinks != []
    ensures rows * cols >= 1 && key in links && (key.0 == 2 * m + rows * cols - 1 || key.1 == 2 * m + rows * cols - 1)
  {
    hide IsGrid, Explained;
    var e := extLinks[0];
    assert e in extLinks && rows * cols >= 1;
    if rows * cols == 1 {
      key := (e.node.id, 2 * m + e.router);
      assert IsExtKey(m, e, key);
    } else {
      LastLinked(wrap, rows, cols, intLinks);
      var l :| l in intLinks && (l.a == rows * cols - 1 || l.b == rows * cols - 1);
      key := (2 * m + l.a, 2 * m + l.b);
      assert IsIntKey(m, l, key);
    }
  }

  lemma LastLinked(wrap: bool, rows: nat, cols: nat, intLinks: seq<IntLink>)
    requires IsGrid(wrap, rows, cols, intLinks) && rows * cols > 1
    ensures exists l :: l in intLinks && (l.a == rows * cols - 1 || l.b == rows * cols - 1)
  {
    hide IsGrid, Distance;
    var h := Closer(wrap, rows, cols, intLinks, rows * cols - 1, 0);
  }

  lemma KeyBound(wrap: bool, rows: nat, cols: nat, m: nat, extLinks: seq<ExtLink>, intLinks: seq<IntLink>, links: LinkMap, key: (nat, nat))
    requires GridNetwork(wrap, rows, cols, m, extLinks, intLinks, links) && key in links && rows * cols > 0
    ensures key.0 < 2 * m + rows * cols && key.1 < 2 * m + rows * cols && links[key].weight > 0
    ensures key.0 == key.1 ==> key.0 >= 2 * m
  {
    hide IsGrid, Distance;
    Origin(m, extLinks, intLinks, key, links[key]);
    if !(exists e :: e in extLinks && IsExtKey(m, e, key) && links[key] == Link(1, 1)) {
      var l :| l in intLinks && IsIntKey(m, l, key) && links[key] == Link(l.weight, l.latency);
      LinkNear(wrap, rows, cols, intLinks, l, 0);
      PositiveWeight(wrap, rows, cols, intLinks, l);
    }
  }

  // A controller sends to its router only.
  lemma OnlyLink(wrap: bool, rows: nat, cols: nat, m: nat, extLinks: seq<ExtLink>, intLinks: seq<IntLink>, links: LinkMap, e: ExtLink, b: nat)
    requires GridNetwork(wrap, rows, cols, m, extLinks, intLinks, links) && e in extLinks && (e.node.id, b) in links
    ensures b == 2 * m + e.router
  {
    hide IsGrid;
    Origin(m, extLinks, intLinks, (e.node.id, b), links[(e.node.id, b)]);
  }

  // A message leaves its controller exactly if the cost of its path is not above that of a
  // missing link.
  lemma FirstLeg(wrap: bool, rows: nat, cols: nat, m: nat, extLinks: seq<ExtLink>, intLinks: seq<IntLink>, links: LinkMap,
                 n: nat, dist: Matrix, lat: Matrix, inter: Matrix, e: ExtLink, f: ExtLink, next: nat)
    requires GridNetwork(wrap, rows, cols, m, extLinks, intLinks, links) && e in extLinks && f in extLinks
    requires n == 2 * m + rows * cols && Solved(Weights(links, n), Latencies(links, n), dist, lat, inter)
    ensures e.router < rows * cols && f.router < rows * cols && Square(dist, n) && e.node.id < m && f.node.id < m
    ensures NextHop(Weights(links, n), dist, e.node.id, next, m + f.node.id) <==>
            next == 2 * m + e.router && 2 + Distance(wrap, rows, cols, e.router, f.router) <= INFINITE_LATENCY
  {
    hide Solved, Distance, IsGrid, IsLinkMap;
    ControllerDistance(wrap, rows, cols, m, extLinks, intLinks, links, n, dist, lat, inter, e, f);
    RouterDistance(wrap, rows, cols, m, extLinks, intLinks, links, n, dist, lat, inter, e.router, f);
    ExtWeight(wrap, rows, cols, m, extLinks, intLinks, links, e);
    if (e.node.id, next) in links {
      OnlyLink(wrap, rows, cols, m, extLinks, intLinks, links, e, next);
    }
  }

  lemma Leaves(wrap: bool, rows: nat, cols: nat, m: nat, extLinks: seq<ExtLink>, intLinks: seq<IntLink>, links: LinkMap,
               n: nat, dist: Matrix, lat: Matrix, inter: Matrix, e: ExtLink, f: ExtLink)
    requires GridNetwork(wrap, rows, cols, m, extLinks, intLinks, links) && e in extLinks && f in extLinks
    requires n == 2 * m + rows * cols && Solved(Weights(links, n), Latencies(links, n), dist, lat, inter)
    ensures e.router < rows * cols && f.router < rows * cols && Square(dist, n) && e.node.id < m && f.node.id < m
    ensures HasHop(Weights(links, n), dist, e.node.id, m + f.node.id) <==>
            2 + Distance(wrap, rows, cols, e.router, f.router) <= INFINITE_LATENCY
  {
    hide Solved, Distance, NextHop, GridNetwork;
    FirstLeg(wrap, rows, cols, m, extLinks, intLinks, links, n, dist, lat, inter, e, f, 2 * m + e.router);
    var from, final := e.node.id, m + f.node.id;
    if next :| NextHop(Weights(links, n), dist, from, next, final) {
      FirstLeg(wrap, rows, cols, m, extLinks, intLinks, links, n, dist, lat, inter, e, f, next);
    }
  }

  // A message from one controller to another that follows the routing tables gets there, at the
  // cost of the distance between their routers plus 2, and in no more hops than that; if that
  // cost is above the weight of a missing link, it is stuck at its sender.
  lemma {:induction false} MessageArrives(wrap: bool, rows: nat, cols: nat, m: nat, extLinks: seq<ExtLink>, intLinks: seq<IntLink>, links: LinkMap,
                       n: nat, dist: Matrix, lat: Matrix, inter: Matrix, e: ExtLink, f: ExtLink, route: seq<nat>)
    requires GridNetwork(wrap, rows, cols, m, extLinks, intLinks, links) && e in extLinks && f in extLinks
    requires IsSwitchCount(links, n) && Solved(Weights(links, n), Latencies(links, n), dist, lat, inter)
    requires Square(dist, n) && m + f.node.id < n && IsRoute(Weights(links, n), dist, route, m + f.node.id)
    requires route[0] == e.node.id
    ensures e.router < rows * cols && f.router < rows * cols
    ensures var cost, last, final := 2 + Distance(wrap, rows, cols, e.router, f.router), route[|route| - 1], m + f.node.id;
            if cost <= INFINITE_LATENCY then
              && (last == final <==> !HasHop(Weights(links, n), dist, last, final))
              && (last == final ==> Along(Weights(links, n), route) == cost)
              && |route| - 1 <= cost
            else |route| == 1 && last != final && !HasHop(Weights(links, n), dist, last, final)
  {
    hide Distance, Solved, IsSwitchCount, HasHop;
    RoutersFit(wrap, rows, cols, m, extLinks, intLinks, links);
    SwitchesOf(wrap, rows, cols, m, extLinks, intLinks, links, n);
    hide GridNetwork, NextHop;
    ControllerDistance(wrap, rows, cols, m, extLinks, intLinks, links, n, dist, lat, inter, e, f);
    Leaves(wrap, rows, cols, m, extLinks, intLinks, links, n, dist, lat, inter, e, f);
    PositiveWeights(wrap, rows, cols, m, extLinks, intLinks, links, n, f);
    UnderWay(Weights(links, n), Latencies(links, n), dist, lat, inter, route, m + f.node.id);
  }

  // A route at a cost that is not above that of a missing link, once it has left its start.
  lemma {:induction false} UnderWay(weights: Matrix, latencies: Matrix, dist: Matrix, lat: Matrix, inter: Matrix, route: seq<nat>, final: nat)
    requires Solved(weights, latencies, dist, lat, inter) && Positive(weights) && Square(dist, |weights|)
    requires final < |weights| && weights[final][final] == 0
    requires IsRoute(weights, dist, route, final) && dist[route[0]][final] <= INFINITE_LATENCY
    ensures |route| - 1 <= dist[route[0]][final]
    ensures var last := route[|route| - 1];
            |route| > 1 ==>
              && HasHop(weights, dist, route[0], final)
              && (last == final <==> !HasHop(weights, dist, last, final))
              && (last == final ==> Along(weights, route) == dist[route[0]][final])
  {
    hide Solved;
    Fits(weights, latencies, dist, lat, inter);
    RouteCost(weights, dist, route, final);
    if |route| > 1 {
      assert NextHop(weights, dist, route[0], route[1], final);
      RoutesDeliver(weights, latencies, dist, lat, inter, route[1..], final);
    }
  }

  lemma PositiveWeights(wrap: bool, rows: nat, cols: nat, m: nat, extLinks: seq<ExtLink>, intLinks: seq<IntLink>, links: LinkMap, n: nat, f: ExtLink)
    requires GridNetwork(wrap, rows, cols, m, extLinks, intLinks, links) && f in extLinks && m + f.node.id < n
    ensures Positive(Weights(links, n)) && Weights(links, n)[m + f.node.id][m + f.node.id] == 0
  {
    hide IsGrid, IsLinkMap;
    forall k: (nat, nat) | k in links
      ensures links[k].weight > 0 && (k.0 == k.1 ==> k.0 >= 2 * m)
    {
      KeyBound(wrap, rows, cols, m, extLinks, intLinks, links, k);
    }
  }

  // ----- Which networks deliver -----

  ghost predicate HasLink(extLinks: seq<ExtLink>, k: nat) {
    exists e :: e in extLinks && e.node.id == k
  }

  // A network as any builder makes it: one external link per controller, and links between
  // routers of any weight.
  ghost predicate BuiltFrom(m: nat, routers: nat, extLinks: seq<ExtLink>, intLinks: seq<IntLink>, links: LinkMap) {
    && IsLinkMap(m, extLinks, intLinks, links)
    && (forall e :: e in extLinks ==> e.node.id < m && e.router < routers)
    && (forall e, f :: e in extLinks && f in extLinks && e.node.id == f.node.id ==> e == f)
    && (forall k: nat :: k < m ==> HasLink(extLinks, k))
    && (forall l :: l in intLinks ==> l.a < routers && l.b < routers)
  }

  ghost function RouterAt(extLinks: seq<ExtLink>, k: nat): nat
    requires HasLink(extLinks, k)
  {
    var e :| e in extLinks && e.node.id == k;
    e.router
  }

  // The switches of the routers that the controllers are at.
  ghost function Places(m: nat, extLinks: seq<ExtLink>): (at: seq<nat>)
    requires forall k: nat :: k < m ==> HasLink(extLinks, k)
    ensures |at| == m && forall k :: 0 <= k < m ==> at[k] == 2 * m + RouterAt(extLinks, k)
  {
    seq(m, (k: nat) requires k < m => 2 * m + RouterAt(extLinks, k))
  }

  lemma TheLink(m: nat, routers: nat, extLinks: seq<ExtLink>, intLinks: seq<IntLink>, links: LinkMap, k: nat) returns (e: ExtLink)
    requires BuiltFrom(m, routers, extLinks, intLinks, links) && k < m
    ensures HasLink(extLinks, k) && e in extLinks && e.node.id == k && e.router == RouterAt(extLinks, k) < routers
  {
    hide IsLinkMap;
    assert HasLink(extLinks, k);
    e :| e in extLinks && e.node.id == k;
  }

  // The link between a controller and a router.
  ghost predicate AtMachine(m: nat, at: seq<nat>, a: nat, b: nat)
    requires |at| == m
  {
    (a < m && b == at[a]) || (m <= b < 2 * m && a == at[b - m])
  }

  lemma ExtKeyOf(m: nat, routers: nat, extLinks: seq<ExtLink>, intLinks: seq<IntLink>, links: LinkMap, a: nat, b: nat)
    requires BuiltFrom(m, routers, extLinks, intLinks, links) && (a, b) in links && (a < 2 * m || b < 2 * m)
    ensures links[(a, b)] == Link(1, 1) && AtMachine(m, Places(m, extLinks), a, b)
  {
    hide Explained;
    Origin(m, extLinks, intLinks, (a, b), links[(a, b)]);
    var e :| e in extLinks && IsExtKey(m, e, (a, b)) && links[(a, b)] == Link(1, 1);
    hide IsLinkMap, HasLink, RouterAt;
    var e' := TheLink(m, routers, extLinks, intLinks, links, e.node.id);
  }

  lemma ExtLinkWeight(m: nat, routers: nat, extLinks: seq<ExtLink>, intLinks: seq<IntLink>, links: LinkMap, k: nat)
    requires BuiltFrom(m, routers, extLinks, intLinks, links) && k < m
    ensures var r := Places(m, extLinks)[k]; 2 * m <= r < 2 * m + routers && WeightOf(links, k, r) == 1 && WeightOf(links, r, m + k) == 1
  {
    var e := TheLink(m, routers, extLinks, intLinks, links, k);
    var r := Places(m, extLinks)[k];
    assert IsExtKey(m, e, (k, r)) && IsExtKey(m, e, (r, m + k));
    assert (k, r) in links && (r, m + k) in links;
    hide BuiltFrom;
    ExtKeyOf(m, routers, extLinks, intLinks, links, k, r);
    ExtKeyOf(m, routers, extLinks, intLinks, links, r, m + k);
  }

  lemma BuiltIsWired(m: nat, routers: nat, extLinks: seq<ExtLink>, intLinks: seq<IntLink>, links: LinkMap, n: nat)
    requires BuiltFrom(m, routers, extLinks, intLinks, links) && n == 2 * m + routers
    ensures Wired(Weights(links, n), m, Places(m, extLinks)) && ShortLinks(Weights(links, n), m, Places(m, extLinks))
  {
    hide IsLinkMap, WiredAt, HasLink, AtMachine;
    var weights, at := Weights(links, n), Places(m, extLinks);
    forall a: nat, b: nat | (a < 2 * m || b < 2 * m) && (a, b) in links
      ensures AtMachine(m, at, a, b)
    {
      ExtKeyOf(m, routers, extLinks, intLinks, links, a, b);
    }
    forall k | 0 <= k < m
      ensures WiredAt(weights, m, at[k], k, m + k) && at[k] < n && weights[k][at[k]] == 1 && weights[at[k]][m + k] == 1
    {
      ExtLinkWeight(m, routers, extLinks, intLinks, links, k);
      WiredHere(links, n, m, at, k);
    }
  }

  lemma WiredHere(links: LinkMap, n: nat, m: nat, at: seq<nat>, k: nat)
    requires |at| == m && k < m && 2 * m <= at[k] < n
    requires forall a: nat, b: nat :: (a < 2 * m || b < 2 * m) && (a, b) in links ==> AtMachine(m, at, a, b)
    requires forall x :: 0 <= x < m ==> 2 * m <= at[x]
    ensures WiredAt(Weights(links, n), m, at[k], k, m + k)
  {
  }

  // Links between the same two routers count by the last of them; all that count have weight.
  ghost predicate Weighted(m: nat, intLinks: seq<IntLink>) {
    forall key: (nat, nat), k: nat :: key.0 != key.1 && IsLast(m, intLinks, key, k) ==> intLinks[k].weight > 0
  }

  lemma WeightedIff(m: nat, routers: nat, extLinks: seq<ExtLink>, intLinks: seq<IntLink>, links: LinkMap, n: nat)
    requires BuiltFrom(m, routers, extLinks, intLinks, links) && n == 2 * m + routers
    ensures Positive(Weights(links, n)) <==> Weighted(m, intLinks)
  {
    if Weighted(m, intLinks) {
      forall i: nat, j: nat | i < n && j < n
        ensures WeightOf(links, i, j) >= 0 && (i != j ==> WeightOf(links, i, j) > 0)
      {
        if (i, j) in links {
          assert Explained(m, extLinks, intLinks, (i, j), links[(i, j)]);
        }
      }
    }
    if Positive(Weights(links, n)) {
      forall key: (nat, nat), k: nat | key.0 != key.1 && IsLast(m, intLinks, key, k)
        ensures intLinks[k].weight > 0
      {
        LastCounts(m, routers, extLinks, intLinks, links, n, key, k);
      }
    }
  }

  lemma LastCounts(m: nat, routers: nat, extLinks: seq<ExtLink>, intLinks: seq<IntLink>, links: LinkMap, n: nat, key: (nat, nat), k: nat)
    requires BuiltFrom(m, routers, extLinks, intLinks, links) && n == 2 * m + routers && IsLast(m, intLinks, key, k)
    ensures key.0 < n && key.1 < n && WeightOf(links, key.0, key.1) == intLinks[k].weight
  {
    var l := intLinks[k];
    assert l in intLinks && key in links && key == (key.0, key.1);
    assert Explained(m, extLinks, intLinks, key, links[key]);
    var k': nat :| IsLast(m, intLinks, key, k') && links[key] == Link(intLinks[k'].weight, intLinks[k'].latency);
  }

  ghost predicate HasController(extLinks: seq<ExtLink>, r: nat) {
    exists e :: e in extLinks && e.router == r
  }

  // If every router has a controller, all messages between controllers within reach of each other
  // arrive exactly if the links that count between different routers have weight.
  lemma {:induction false} NetworkDeliversIff(m: nat, routers: nat, extLinks: seq<ExtLink>, intLinks: seq<IntLink>, links: LinkMap, counts: seq<nat>,
                           n: nat, dist: Matrix, lat: Matrix, inter: Matrix, tables: Tables)
    requires BuiltFrom(m, routers, extLinks, intLinks, links) && n == 2 * m + routers && Machines(counts, |counts|) == m
    requires forall r: nat :: r < routers ==> HasController(extLinks, r)
    requires Square(dist, n) && IsRouting(links, n, counts, dist, tables) && Solved(Weights(links, n), Latencies(links, n), dist, lat, inter)
    ensures AllServed(n, counts, dist, tables) <==> Weighted(m, intLinks)
  {
    hide IsRouting, Solved, Wired, ShortLinks, Positive, AllServed, Weighted, IsLinkMap;
    var at := Places(m, extLinks);
    BuiltIsWired(m, routers, extLinks, intLinks, links, n);
    WeightedIff(m, routers, extLinks, intLinks, links, n);
    forall r: nat | 2 * m <= r < n
      ensures r in at
    {
      var x := r - 2 * m;
      assert HasController(extLinks, x);
      var e :| e in extLinks && e.router == x;
      var e' := TheLink(m, routers, extLinks, intLinks, links, e.node.id);
      assert at[e.node.id] == r;
    }
    TablesDeliverIff(links, n, counts, dist, lat, inter, tables, at);
  }

  // ----- From the builder to the routing -----

  ghost predicate Numbered(nodes: seq<Controller>) {
    (forall k :: 0 <= k < |nodes| ==> nodes[k].id < |nodes|) &&
    forall j, k :: 0 <= j < k < |nodes| ==> nodes[j].id != nodes[k].id
  }

  lemma Attached(nodes: seq<Controller>, numRouters: nat, numRows: nat, e: ExtLink) returns (k: nat)
    requires Numbered(nodes) && Shaped(nodes, numRouters, numRows) && e in ExtLinks(nodes, numRouters)
    ensures k < |nodes| && |ExtLinks(nodes, numRouters)| == |nodes| && ExtLinks(nodes, numRouters)[k] == e
    ensures e.node == nodes[k] && e.node.id < |nodes| && e.router < numRouters
  {
    var ext := ExtLinks(nodes, numRouters);
    var i :| 0 <= i < |ext| && ext[i] == e;
    k := i;
    assert e.node == nodes[k];
  }

  lemma BuiltNetwork(wrap: bool, nodes: seq<Controller>, numRouters: nat, numRows: nat, intLinks: seq<IntLink>, links: LinkMap)
    requires Numbered(nodes) && Shaped(nodes, numRouters, numRows)
    requires IsGrid(wrap, numRows, numRouters / numRows, intLinks)
    requires IsLinkMap(|nodes|, ExtLinks(nodes, numRouters), intLinks, links)
    ensures GridNetwork(wrap, numRows, numRouters / numRows, |nodes|, ExtLinks(nodes, numRouters), intLinks, links)
  {
    hide IsGrid, IsLinkMap, ExtLinks;
    var ext := ExtLinks(nodes, numRouters);
    forall e | e in ext
      ensures e.node.id < |nodes| && e.router < numRouters
    {
      var k := Attached(nodes, numRouters, numRows, e);
    }
    forall e, f | e in ext && f in ext && e.node.id == f.node.id
      ensures e == f
    {
      var j := Attached(nodes, numRouters, numRows, e);
      var k := Attached(nodes, numRouters, numRows, f);
      assert nodes[j].id == nodes[k].id;
    }
  }

  // A mesh or torus, its links and its routing: the cost of the cheapest path between every two
  // controllers is the distance of their routers plus 2, up to the weight of a missing link.
  method RouteGrid(wrap: bool, nodes: seq<Controller>, numRouters: nat, numRows: nat, counts: seq<nat>)
    returns (ok: bool, dist: array2<int>)
    requires nodes != [] && Numbered(nodes) && Machines(counts, |counts|) == |nodes|
    ensures ok <==> Shaped(nodes, numRouters, numRows)
    ensures ok ==> dist.Length0 == dist.Length1 == 2 * |nodes| + numRouters
    ensures ok ==> AllReach(wrap, nodes, numRouters, numRows, Snap(dist))
  {
    hide IsGrid, IsLinkMap, Solved, IsRouting, Shaped, GridNetwork, IsSwitchCount, Numbered, AllReach, Machines, Snap;
    var links;
    ghost var intLinks;
    ok, links, intLinks := BuildGrid(wrap, nodes, numRouters, numRows);
    if !ok {
      dist := new int[0, 0];
      return;
    }
    ghost var cols := numRouters / numRows;
    Prepared(wrap, numRows, cols, |nodes|, ExtLinks(nodes, numRouters), intLinks, links);
    var tables, n, latencies, interSwitches;
    tables, n, dist, latencies, interSwitches := CreateLinks(links, counts);
    SwitchesOf(wrap, numRows, cols, |nodes|, ExtLinks(nodes, numRouters), intLinks, links, n);
    GridReaches(wrap, nodes, numRouters, numRows, intLinks, links, n, Snap(dist), Snap(latencies), Snap(interSwitches));
  }

  method BuildGrid(wrap: bool, nodes: seq<Controller>, numRouters: nat, numRows: nat)
    returns (ok: bool, links: LinkMap, ghost intLinks: seq<IntLink>)
    requires nodes != [] && Numbered(nodes)
    ensures ok <==> Shaped(nodes, numRouters, numRows)
    ensures ok ==> numRouters > 0 && numRows > 0 && numRows * (numRouters / numRows) == numRouters
    ensures ok ==> GridNetwork(wrap, numRows, numRouters / numRows, |nodes|, ExtLinks(nodes, numRouters), intLinks, links)
  {
    hide IsGrid, IsLinkMap, GridNetwork, Numbered, Attachable, InGridOrder, ExtLinks;
    links, intLinks := map[], [];
    var built;
    if wrap {
      built := Torus.MakeTopology(nodes, numRouters, numRows);
    } else {
      built := Mesh.MakeTopology(nodes, numRouters, numRows);
    }
    ok := built.Some?;
    if ok {
      links := BuildLinkMap(|nodes|, built.value.1, built.value.0);
      intLinks := built.value.0;
      BuiltNetwork(wrap, nodes, numRouters, numRows, intLinks, links);
    }
  }

  lemma GridReaches(wrap: bool, nodes: seq<Controller>, numRouters: nat, numRows: nat, intLinks: seq<IntLink>, links: LinkMap,
                    n: nat, dist: Matrix, lat: Matrix, inter: Matrix)
    requires Shaped(nodes, numRouters, numRows)
    requires GridNetwork(wrap, numRows, numRouters / numRows, |nodes|, ExtLinks(nodes, numRouters), intLinks, links)
    requires n == 2 * |nodes| + numRouters && Square(dist, n) && Solved(Weights(links, n), Latencies(links, n), dist, lat, inter)
    ensures AllReach(wrap, nodes, numRouters, numRows, dist)
  {
    hide GridNetwork, Solved, Distance;
    var ext := ExtLinks(nodes, numRouters);
    forall j, k | 0 <= j < |nodes| && 0 <= k < |nodes|
      ensures Reaches(wrap, nodes, numRouters, numRows, dist, j, k)
    {
      assert ext[j] in ext && ext[k] in ext;
      ControllerDistance(wrap, numRows, numRouters / numRows, |nodes|, ext, intLinks, links, n, dist, lat, inter, ext[j], ext[k]);
    }
  }

  // The cost from controller j to controller k.
  ghost predicate Reaches(wrap: bool, nodes: seq<Controller>, numRouters: nat, numRows: nat, dist: Matrix, j: nat, k: nat)
    requires Shaped(nodes, numRouters, numRows) && Square(dist, 2 * |nodes| + numRouters) && j < |nodes| && k < |nodes|
  {
    nodes[j].id < |nodes| && nodes[k].id < |nodes| &&
    RouterOf(nodes, numRouters, j) < numRouters && RouterOf(nodes, numRouters, k) < numRouters &&
    dist[nodes[j].id][|nodes| + nodes[k].id] ==
    Capped(2 + Distance(wrap, numRows, numRouters / numRows, RouterOf(nodes, numRouters, j), RouterOf(nodes, numRouters, k)))
  }

  ghost predicate AllReach(wrap: bool, nodes: seq<Controller>, numRouters: nat, numRows: nat, dist: Matrix)
    requires Shaped(nodes, numRouters, numRows) && Square(dist, 2 * |nodes| + numRouters)
  {
    forall j, k :: 0 <= j < |nodes| && 0 <= k < |nodes| ==> Reaches(wrap, nodes, numRouters, numRows, dist, j, k)
  }

  lemma Prepared(wrap: bool, rows: nat, cols: nat, m: nat, extLinks: seq<ExtLink>, intLinks: seq<IntLink>, links: LinkMap)
    requires GridNetwork(wrap, rows, cols, m, extLinks, intLinks, links) && extLinks != []
    ensures forall k :: k in links ==> links[k].weight >= 0
    ensures forall n :: IsSwitchCount(links, n) ==> 2 * m <= n
  {
    hide IsGrid, IsSwitchCount;
    assert extLinks[0] in extLinks;
    forall k: (nat, nat) | k in links
      ensures links[k].weight >= 0
    {
      KeyBound(wrap, rows, cols, m, extLinks, intLinks, links, k);
    }
    forall n: nat | IsSwitchCount(links, n)
      ensures 2 * m <= n
    {
      SwitchesOf(wrap, rows, cols, m, extLinks, intLinks, links, n);
    }
  }
}
