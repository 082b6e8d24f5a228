/**
 Which way messages go in a mesh or a torus: a router takes, of the links whose table holds the
 destination, one of least weight, and column links weigh more than row links.
 */
module XYRouting {
  import opened Options
  import opened Network
  import opened Grid
  import opened ShortestPath
  import opened Routing
  import opened Topology

  // ----- The choice of a router -----

  // The loop over the output links of a router: leads says which tables hold the destination.
  method RouteCompute(leads: seq<bool>, weights: seq<int>) returns (outputLink: Option<nat>)
    requires |leads| == |weights|
    ensures outputLink.None? <==> forall k :: 0 <= k < |leads| && leads[k] ==> weights[k] >= INFINITE_LATENCY
    ensures outputLink.Some? ==>
              var o := outputLink.value;
              && o < |leads| && leads[o] && weights[o] < INFINITE_LATENCY && (forall k :: 0 <= k < |leads| && leads[k] ==> weights[o] <= weights[k])
              && forall k :: 0 <= k < o && leads[k] ==> weights[o] < weights[k]
  {
    outputLink := None;
    var minWeight := INFINITE_LATENCY;
    var link := 0;
    while link < |leads|
      invariant 0 <= link <= |leads|
      invariant outputLink.None? ==> minWeight == INFINITE_LATENCY && forall k :: 0 <= k < link && leads[k] ==> weights[k] >= INFINITE_LATENCY
      invariant outputLink.Some? ==>
                  var o := outputLink.value;
                  && o < link && leads[o] && minWeight == weights[o] < INFINITE_LATENCY
                  && (forall k :: 0 <= k < link && leads[k] ==> weights[o] <= weights[k])
                  && forall k :: 0 <= k < o && leads[k] ==> weights[o] < weights[k]
    {
      if leads[link] && weights[link] < minWeight {
        outputLink := Some(link);
        minWeight := weights[link];
      }
      link := link + 1;
    }
  }

  // A link of least weight among those that lead to final.
  ghost predicate Chosen(weights: Matrix, dist: Matrix, s: nat, next: nat, final: nat)
    requires Square(weights, |weights|) && Square(dist, |weights|) && s < |weights| && final < |weights|
  {
    NextHop(weights, dist, s, next, final) &&
    forall other: nat :: NextHop(weights, dist, s, other, final) ==> weights[s][next] <= weights[s][other]
  }

  // ----- The hops of a grid -----

  // The network of a grid, with its cheapest paths.
  datatype Net = Net(wrap: bool, rows: nat, cols: nat, m: nat, extLinks: seq<ExtLink>, intLinks: seq<IntLink>, links: LinkMap,
                     dist: Matrix, lat: Matrix, inter: Matrix) {
    ghost function N(): nat { 2 * m + rows * cols }

    ghost predicate Valid() {
      GridNetwork(wrap, rows, cols, m, extLinks, intLinks, links) &&
      Solved(Weights(links, N()), Latencies(links, N()), dist, lat, inter)
    }

    // Router u and the controller of f, not too far away for the weights.
    ghost predicate InReach(u: nat, f: ExtLink) {
      Valid() && f in extLinks && u < rows * cols && f.router < rows * cols &&
      1 + Distance(wrap, rows, cols, u, f.router) <= INFINITE_LATENCY
    }

    ghost predicate Hops(u: nat, next: nat, f: ExtLink)
      requires InReach(u, f)
    {
      RoutersFit(wrap, rows, cols, m, extLinks, intLinks, links);
      RouterDistance(wrap, rows, cols, m, extLinks, intLinks, links, N(), dist, lat, inter, u, f);
      NextHop(Weights(links, N()), dist, 2 * m + u, next, m + f.node.id)
    }

    ghost predicate Takes(u: nat, next: nat, f: ExtLink)
      requires InReach(u, f)
    {
      RoutersFit(wrap, rows, cols, m, extLinks, intLinks, links);
      RouterDistance(wrap, rows, cols, m, extLinks, intLinks, links, N(), dist, lat, inter, u, f);
      Chosen(Weights(links, N()), dist, 2 * m + u, next, m + f.node.id)
    }
  }

  // Behind the receiving end of another controller nothing is closer.
  lemma SinkFar(net: Net, e: ExtLink, f: ExtLink)
    requires net.Valid() && e in net.extLinks && f in net.extLinks && e != f
    ensures e.router < net.rows * net.cols && f.router < net.rows * net.cols && e.node.id < net.m && f.node.id < net.m
    ensures Square(net.dist, net.N())
    ensures net.dist[net.m + e.node.id][net.m + f.node.id] >=
            Capped(1 + Distance(net.wrap, net.rows, net.cols, e.router, f.router))
  {
    hide Solved, Distance, IsGrid, IsLinkMap, Potential;
    var n, m := net.N(), net.m;
    var weights, latencies := Weights(net.links, n), Latencies(net.links, n);
    Fits(weights, latencies, net.dist, net.lat, net.inter);
    var best := CheapestWalk(weights, latencies, net.dist, net.lat, net.inter, m + e.node.id, m + f.node.id);
    WalkBound(net.wrap, net.rows, net.cols, m, net.extLinks, net.intLinks, net.links, f, n, best);
    PotentialOf(net.wrap, net.rows, net.cols, m, net.extLinks, net.intLinks, net.links, f, e);
  }

  ghost predicate Joined(net: Net, u: nat, v: nat, l: IntLink) {
    l in net.intLinks && Joins(l, u, v) && u < net.rows * net.cols && v < net.rows * net.cols
  }

  // A hop of a router leads to the controller itself, or to a router that is closer by the weight
  // of the link.
  lemma HopKind(net: Net, u: nat, next: nat, f: ExtLink) returns (l: IntLink)
    requires net.InReach(u, f) && net.Hops(u, next, f)
    ensures next == net.m + f.node.id ==> u == f.router
    ensures next != net.m + f.node.id ==>
              && next >= 2 * net.m && Joined(net, u, next - 2 * net.m, l)
              && WeightOf(net.links, 2 * net.m + u, next) == l.weight > 0
              && Distance(net.wrap, net.rows, net.cols, u, f.router) ==
                 l.weight + Distance(net.wrap, net.rows, net.cols, next - 2 * net.m, f.router)
  {
    hide Solved, Distance, IsGrid, Potential, IsLinkMap;
    var m, n := net.m, net.N();
    var key := (2 * m + u, next);
    l := IntLink(0, 0, 0, 0, 0);
    RouterDistance(net.wrap, net.rows, net.cols, m, net.extLinks, net.intLinks, net.links, n, net.dist, net.lat, net.inter, u, f);
    assert key in net.links;
    KeyOrigin(net, key);
    if e :| e in net.extLinks && IsExtKey(m, e, key) && net.links[key] == Link(1, 1) {
      OwnController(net, u, e, f);
    } else {
      l :| l in net.intLinks && IsIntKey(m, l, key) && net.links[key] == Link(l.weight, l.latency);
      RouterHop(net, u, next, f, l);
    }
  }

  lemma RouterHop(net: Net, u: nat, next: nat, f: ExtLink, l: IntLink)
    requires net.InReach(u, f) && net.Hops(u, next, f)
    requires var key := (2 * net.m + u, next);
             l in net.intLinks && IsIntKey(net.m, l, key) && key in net.links && net.links[key] == Link(l.weight, l.latency)
    ensures next >= 2 * net.m && Joined(net, u, next - 2 * net.m, l) && l.weight > 0
    ensures Distance(net.wrap, net.rows, net.cols, u, f.router) ==
            l.weight + Distance(net.wrap, net.rows, net.cols, next - 2 * net.m, f.router)
  {
    hide Solved, Distance, IsGrid, Potential, IsLinkMap;
    var m, n := net.m, net.N();
    RouterDistance(net.wrap, net.rows, net.cols, m, net.extLinks, net.intLinks, net.links, n, net.dist, net.lat, net.inter, u, f);
    LinkNear(net.wrap, net.rows, net.cols, net.intLinks, l, f.router);
    PositiveWeight(net.wrap, net.rows, net.cols, net.intLinks, l);
    RouterDistance(net.wrap, net.rows, net.cols, m, net.extLinks, net.intLinks, net.links, n, net.dist, net.lat, net.inter, next - 2 * m, f);
  }

  // The only controller that a router sends a message to is its destination.
  lemma OwnController(net: Net, u: nat, e: ExtLink, f: ExtLink)
    requires net.InReach(u, f) && e in net.extLinks && e.router == u && net.Hops(u, net.m + e.node.id, f)
    ensures e == f
  {
    hide Solved, Distance, GridNetwork;
    RoutersFit(net.wrap, net.rows, net.cols, net.m, net.extLinks, net.intLinks, net.links);
    RouterDistance(net.wrap, net.rows, net.cols, net.m, net.extLinks, net.intLinks, net.links, net.N(), net.dist, net.lat, net.inter, u, f);
    if e != f {
      SinkFar(net, e, f);
      assert false;
    }
  }

  lemma KeyOrigin(net: Net, key: (nat, nat))
    requires net.Valid() && key in net.links
    ensures (exists e :: e in net.extLinks && IsExtKey(net.m, e, key) && net.links[key] == Link(1, 1)) ||
            (exists l :: l in net.intLinks && IsIntKey(net.m, l, key) && net.links[key] == Link(l.weight, l.latency))
  {
    hide Solved, IsGrid, Explained;
    Origin(net.m, net.extLinks, net.intLinks, key, net.links[key]);
  }

  // A link that leads closer by its weight is a hop.
  lemma CloserHops(net: Net, u: nat, h: Hop, f: ExtLink)
    requires net.InReach(u, f) && h.link in net.intLinks && From(h) == u && To(h) < net.rows * net.cols && 0 < h.link.weight < INFINITE_LATENCY
    requires Distance(net.wrap, net.rows, net.cols, u, f.router) ==
             h.link.weight + Distance(net.wrap, net.rows, net.cols, To(h), f.router)
    ensures net.Hops(u, 2 * net.m + To(h), f) && WeightOf(net.links, 2 * net.m + u, 2 * net.m + To(h)) == h.link.weight
  {
    hide Solved, Distance, IsGrid, IsLinkMap;
    var m, n := net.m, net.N();
    IntWeight(net.wrap, net.rows, net.cols, m, net.extLinks, net.intLinks, net.links, h);
    RouterDistance(net.wrap, net.rows, net.cols, m, net.extLinks, net.intLinks, net.links, n, net.dist, net.lat, net.inter, u, f);
    RouterDistance(net.wrap, net.rows, net.cols, m, net.extLinks, net.intLinks, net.links, n, net.dist, net.lat, net.inter, To(h), f);
  }

  // In another column than its destination a message can always go along the row.
  lemma RowHop(net: Net, u: nat, f: ExtLink) returns (next: nat)
    requires net.InReach(u, f) && net.cols > 0 && u % net.cols != f.router % net.cols
    ensures net.Hops(u, next, f) && WeightOf(net.links, 2 * net.m + u, next) == 1
  {
    hide *;
    var rows, cols, d := net.rows, net.cols, f.router;
    Means(net, u, f);
    GridOf(net);
    RowInRange(rows, cols, u);
    RowInRange(rows, cols, d);
    var r, c, r', c' := u / cols, u % cols, d / cols, d % cols;
    var h := CloserInRow(net.wrap, rows, cols, net.intLinks, r, c, r', c');
    CloserHops(net, u, h, f);
    next := 2 * net.m + To(h);
  }

  // A hop from u to v along the row, or along the column, that is closer to d.
  ghost predicate AlongRow(net: Net, u: nat, v: nat, d: nat) {
    net.cols > 0 && u < net.rows * net.cols && v < net.rows * net.cols && d < net.rows * net.cols &&
    v / net.cols == u / net.cols &&
    Distance(net.wrap, net.rows, net.cols, v, d) == Distance(net.wrap, net.rows, net.cols, u, d) - 1
  }

  ghost predicate AlongColumn(net: Net, u: nat, v: nat, d: nat) {
    net.cols > 0 && u < net.rows * net.cols && v < net.rows * net.cols && d < net.rows * net.cols &&
    v % net.cols == u % net.cols &&
    Distance(net.wrap, net.rows, net.cols, v, d) == Distance(net.wrap, net.rows, net.cols, u, d) - 2
  }

  // One hop with the choice of least weight: along the row while the column is another one, then
  // along the column, and at the router of the destination to the destination.
  lemma ChosenHop(net: Net, u: nat, next: nat, f: ExtLink)
    requires net.InReach(u, f) && net.Takes(u, next, f)
    ensures net.cols > 0
    ensures u == f.router ==> next == net.m + f.node.id
    ensures u != f.router ==> next >= 2 * net.m && net.InReach(next - 2 * net.m, f)
    ensures u != f.router && u % net.cols != f.router % net.cols ==> AlongRow(net, u, next - 2 * net.m, f.router)
    ensures u != f.router && u % net.cols == f.router % net.cols ==> AlongColumn(net, u, next - 2 * net.m, f.router)
  {
    hide *;
    var wrap, rows, cols, d := net.wrap, net.rows, net.cols, f.router;
    Means(net, u, f);
    Takes(net, u, next, f);
    RowInRange(rows, cols, u);
    var l := HopKind(net, u, next, f);
    NoDistance(wrap, rows, cols, u);
    if next != net.m + f.node.id {
      var v := next - 2 * net.m;
      JoinedMeans(net, u, v, l);
      Means(net, v, f);
      var sameRow := LinkKind(net, u, v, l);
      Steps(net, u, v, d);
      if u % cols != d % cols {
        var other := RowHop(net, u, f);
        LeastWeight(net, u, next, other, f);
      } else if sameRow {
        NotInRow(wrap, rows, cols, u, v, d);
      }
    }
  }

  lemma JoinedMeans(net: Net, u: nat, v: nat, l: IntLink)
    requires Joined(net, u, v, l)
    ensures u < net.rows * net.cols && v < net.rows * net.cols
  {
  }

  lemma Steps(net: Net, u: nat, v: nat, d: nat)
    requires net.cols > 0 && u < net.rows * net.cols && v < net.rows * net.cols && d < net.rows * net.cols
    ensures AlongRow(net, u, v, d) <==>
            v / net.cols == u / net.cols && Distance(net.wrap, net.rows, net.cols, v, d) == Distance(net.wrap, net.rows, net.cols, u, d) - 1
    ensures AlongColumn(net, u, v, d) <==>
            v % net.cols == u % net.cols && Distance(net.wrap, net.rows, net.cols, v, d) == Distance(net.wrap, net.rows, net.cols, u, d) - 2
  {
    hide Distance;
  }

  // In the column of the destination no router of the row is closer.
  lemma NotInRow(wrap: bool, rows: nat, cols: nat, u: nat, v: nat, d: nat)
    requires u < rows * cols && v < rows * cols && d < rows * cols && cols > 0
    requires u % cols == d % cols && u / cols == v / cols
    ensures Distance(wrap, rows, cols, u, d) <= Distance(wrap, rows, cols, v, d)
  {
    hide LineDistance;
    RowInRange(rows, cols, u);
    RowInRange(rows, cols, v);
    RowInRange(rows, cols, d);
    NoLine(wrap, cols, u % cols);
  }

  lemma GridOf(net: Net)
    requires net.Valid()
    ensures IsGrid(net.wrap, net.rows, net.cols, net.intLinks)
  {
    hide IsGrid, Solved, IsLinkMap;
  }

  lemma Means(net: Net, u: nat, f: ExtLink)
    ensures net.InReach(u, f) <==> net.Valid() && f in net.extLinks && u < net.rows * net.cols && f.router < net.rows * net.cols &&
                                   1 + Distance(net.wrap, net.rows, net.cols, u, f.router) <= INFINITE_LATENCY
  {
    hide GridNetwork, Solved, Distance;
  }

  lemma Takes(net: Net, u: nat, next: nat, f: ExtLink)
    requires net.InReach(u, f) && net.Takes(u, next, f)
    ensures net.Hops(u, next, f)
  {
    hide GridNetwork, Solved, Distance, NextHop;
  }

  lemma LeastWeight(net: Net, u: nat, next: nat, other: nat, f: ExtLink)
    requires net.InReach(u, f) && net.Takes(u, next, f) && net.Hops(u, other, f)
    ensures WeightOf(net.links, 2 * net.m + u, next) <= WeightOf(net.links, 2 * net.m + u, other)
  {
    hide GridNetwork, Solved, Distance, WeightOf;
  }

  lemma LinkKind(net: Net, u: nat, v: nat, l: IntLink) returns (sameRow: bool)
    requires net.Valid() && Joined(net, u, v, l)
    ensures net.cols > 0 && l.weight == if sameRow then 1 else 2
    ensures if sameRow then u / net.cols == v / net.cols else u % net.cols == v % net.cols
  {
    hide Solved, IsGrid, IsLinkMap;
    sameRow := Kind(net.wrap, net.rows, net.cols, net.intLinks, l);
  }

  lemma NoLine(wrap: bool, n: nat, i: nat)
    requires i < n
    ensures LineDistance(wrap, n, i, i) == 0
  {
  }

  // Routers one after the other, each the choice of the one before.
  ghost predicate IsChosenRoute(net: Net, route: seq<nat>, f: ExtLink) {
    route != [] && net.InReach(route[0], f) &&
    (|route| == 1 ||
     (IsChosenRoute(net, route[..|route| - 1], f) && net.InReach(route[|route| - 2], f) &&
      net.Takes(route[|route| - 2], 2 * net.m + route[|route| - 1], f)))
  }

  lemma Turn(net: Net, u: nat, v: nat, f: ExtLink)
    requires net.InReach(u, f) && net.Takes(u, 2 * net.m + v, f)
    ensures net.cols > 0
    ensures if u % net.cols != f.router % net.cols then v / net.cols == u / net.cols else v % net.cols == u % net.cols
  {
    hide *;
    ChosenHop(net, u, 2 * net.m + v, f);
    Means(net, u, f);
    ControllerBelow(net, f);
    if u != f.router {
      Means(net, v, f);
      Steps(net, u, v, f.router);
    }
  }

  lemma ControllerBelow(net: Net, f: ExtLink)
    requires net.Valid() && f in net.extLinks
    ensures f.node.id < net.m
  {
    hide IsGrid, Solved, IsLinkMap;
  }

  // A message that follows the choices of the routers goes along the row of its first router until
  // it is in the column of its destination, and stays in that column.
  lemma {:induction false} RowThenColumn(net: Net, route: seq<nat>, f: ExtLink)
    requires IsChosenRoute(net, route, f) && net.cols > 0
    ensures forall k :: 0 <= k < |route| ==> route[k] / net.cols == route[0] / net.cols || route[k] % net.cols == f.router % net.cols
    decreases |route|
  {
    hide GridNetwork, Solved, Distance;
    if |route| > 1 {
      var n := |route| - 1;
      RowThenColumn(net, route[..n], f);
      Turn(net, route[n - 1], route[n], f);
      assert forall k :: 0 <= k < n ==> route[..n][k] == route[k];
    }
  }

  // The tables alone do not say so: they hold a hop along the column as well, from the start.
  lemma ColumnHopInTables(net: Net, u: nat, f: ExtLink) returns (next: nat)
    requires net.InReach(u, f) && net.cols > 0 && u / net.cols != f.router / net.cols
    ensures net.Hops(u, next, f) && WeightOf(net.links, 2 * net.m + u, next) == 2
  {
    hide *;
    var rows, cols, d := net.rows, net.cols, f.router;
    Means(net, u, f);
    GridOf(net);
    RowInRange(rows, cols, u);
    RowInRange(rows, cols, d);
    var r, c, r', c' := u / cols, u % cols, d / cols, d % cols;
    var h := CloserInColumn(net.wrap, rows, cols, net.intLinks, r, c, r', c');
    CloserHops(net, u, h, f);
    next := 2 * net.m + To(h);
  }
}
