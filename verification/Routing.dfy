/**
 Routing tables: the weight matrix made from the links of a network, the destinations every link
 is given, and what a message that follows them does.
 */
module Routing {
  import opened ShortestPath

  datatype Link = Link(weight: int, latency: int)

  type LinkMap = map<(nat, nat), Link>

  // ----- What following the tables does -----

  // The link from s to next is in use and leads to final.
  ghost predicate NextHop(weights: Matrix, dist: Matrix, s: nat, next: nat, final: nat)
    requires Square(weights, |weights|) && Square(dist, |weights|) && s < |weights| && final < |weights|
  {
    next < |weights| && weights[s][next] > 0 && weights[s][next] != INFINITE_LATENCY &&
    weights[s][next] + dist[next][final] == dist[s][final]
  }

  // Some link leads on to final.
  ghost predicate HasHop(weights: Matrix, dist: Matrix, s: nat, final: nat)
    requires Square(weights, |weights|) && Square(dist, |weights|) && s < |weights| && final < |weights|
  {
    exists next :: NextHop(weights, dist, s, next, final)
  }

  // Every hop of the route follows the tables for final.
  ghost predicate IsRoute(weights: Matrix, dist: Matrix, route: seq<nat>, final: nat)
    requires Square(weights, |weights|) && Square(dist, |weights|) && final < |weights|
  {
    route != [] && (forall k :: 0 <= k < |route| ==> route[k] < |weights|) &&
    forall k, k' :: 0 <= k < |route| && k' == k + 1 && k' < |route| ==> NextHop(weights, dist, route[k], route[k'], final)
  }

  lemma {:induction false} RouteCost(weights: Matrix, dist: Matrix, route: seq<nat>, final: nat)
    requires Square(weights, |weights|) && Square(dist, |weights|) && final < |weights|
    requires IsRoute(weights, dist, route, final)
    ensures Along(weights, route) + dist[route[|route| - 1]][final] == dist[route[0]][final]
    ensures Along(weights, route) >= |route| - 1
  {
    if |route| > 1 {
      assert NextHop(weights, dist, route[0], route[1], final);
      RouteCost(weights, dist, route[1..], final);
    }
  }

  // Links have positive weight; only a switch and itself may be joined at no cost.
  ghost predicate Positive(weights: Matrix) {
    Square(weights, |weights|) &&
    forall i, j :: 0 <= i < |weights| && 0 <= j < |weights| ==> weights[i][j] >= 0 && (i != j ==> weights[i][j] > 0)
  }

  lemma StepBound(weights: Matrix, latencies: Matrix, dist: Matrix, lat: Matrix, inter: Matrix, s: nat, next: nat, final: nat)
    requires Solved(weights, latencies, dist, lat, inter)
    requires s < |weights| && next < |weights| && final < |weights|
    ensures Square(weights, |weights|) && Square(dist, |weights|)
    ensures dist[s][final] <= weights[s][next] + dist[next][final]
  {
    hide Solved;
    Fits(weights, latencies, dist, lat, inter);
    var w := CheapestWalk(weights, latencies, dist, lat, inter, next, final);
    Prepend(weights, w, s, next, final);
    Least(weights, latencies, dist, lat, inter, [s] + w, s, final);
  }

  lemma Fits(weights: Matrix, latencies: Matrix, dist: Matrix, lat: Matrix, inter: Matrix)
    requires Solved(weights, latencies, dist, lat, inter)
    ensures Square(weights, |weights|) && Square(dist, |weights|)
    ensures forall i, j :: 0 <= i < |weights| && 0 <= j < |weights| ==> 0 <= dist[i][j] <= weights[i][j]
  {
  }

  lemma CheapestWalk(weights: Matrix, latencies: Matrix, dist: Matrix, lat: Matrix, inter: Matrix, i: nat, j: nat) returns (w: seq<nat>)
    requires Solved(weights, latencies, dist, lat, inter) && i < |weights| && j < |weights|
    ensures Square(weights, |weights|) && Square(dist, |weights|)
    ensures IsWalk(|weights|, w, i, j) && Along(weights, w) == dist[i][j]
  {
    assert Backed(weights, latencies, i, j, dist[i][j], lat[i][j], inter[i][j]);
    w :| IsWalk(|weights|, w, i, j) && Along(weights, w) == dist[i][j];
  }

  lemma {:induction false} Least(weights: Matrix, latencies: Matrix, dist: Matrix, lat: Matrix, inter: Matrix, w: seq<nat>, i: nat, j: nat)
    requires Solved(weights, latencies, dist, lat, inter) && IsWalk(|weights|, w, i, j)
    ensures Square(weights, |weights|) && Square(dist, |weights|)
    ensures dist[i][j] <= Along(weights, w)
  {
  }

  lemma {:induction false} Prepend(weights: Matrix, w: seq<nat>, s: nat, i: nat, j: nat)
    requires Square(weights, |weights|) && IsWalk(|weights|, w, i, j) && s < |weights|
    ensures IsWalk(|weights|, [s] + w, s, j) && Along(weights, [s] + w) == weights[s][i] + Along(weights, w)
  {
    assert ([s] + w)[1..] == w;
  }

  // A cheapest walk that is not yet at final starts with a hop that the tables hold.
  lemma {:induction false} FirstHop(weights: Matrix, latencies: Matrix, dist: Matrix, lat: Matrix, inter: Matrix,
                                    w: seq<nat>, s: nat, final: nat) returns (next: nat)
    requires Solved(weights, latencies, dist, lat, inter) && Positive(weights)
    requires s < |weights| && final < |weights| && s != final && weights[final][final] == 0
    requires IsWalk(|weights|, w, s, final) && Along(weights, w) == dist[s][final] < INFINITE_LATENCY
    ensures NextHop(weights, dist, s, next, final)
    decreases |w|
  {
    hide Solved;
    Fits(weights, latencies, dist, lat, inter);
    next := w[1];
    StepBound(weights, latencies, dist, lat, inter, s, next, final);
    if |w| == 2 {
      assert Along(weights, w[1..]) == 0;
      assert dist[final][final] <= weights[final][final];
    } else {
      assert IsWalk(|weights|, w[1..], next, final);
      Least(weights, latencies, dist, lat, inter, w[1..], next, final);
      assert weights[s][next] >= 0;
      if next == s {
        next := FirstHop(weights, latencies, dist, lat, inter, w[1..], s, final);
      }
    }
  }

  lemma Hop(weights: Matrix, latencies: Matrix, dist: Matrix, lat: Matrix, inter: Matrix, s: nat, final: nat)
    requires Solved(weights, latencies, dist, lat, inter) && Positive(weights)
    requires s < |weights| && final < |weights| && s != final && weights[final][final] == 0 && dist[s][final] < INFINITE_LATENCY
    ensures HasHop(weights, dist, s, final)
  {
    hide Solved;
    Fits(weights, latencies, dist, lat, inter);
    var w := CheapestWalk(weights, latencies, dist, lat, inter, s, final);
    var next := FirstHop(weights, latencies, dist, lat, inter, w, s, final);
  }

  // A message that follows the tables arrives: as long as it is not at its destination there is
  // a link to take, at the destination there is none, and it gets there within dist hops having
  // taken a cheapest path, whichever of the possible links it takes on the way.
  lemma {:induction false} RoutesDeliver(weights: Matrix, latencies: Matrix, dist: Matrix, lat: Matrix, inter: Matrix, route: seq<nat>, final: nat)
    requires Solved(weights, latencies, dist, lat, inter) && Positive(weights)
    requires final < |weights| && weights[final][final] == 0
    requires IsRoute(weights, dist, route, final) && dist[route[0]][final] < INFINITE_LATENCY
    ensures |route| - 1 <= dist[route[0]][final]
    ensures var last := route[|route| - 1]; last == final <==> !HasHop(weights, dist, last, final)
    ensures route[|route| - 1] == final ==> Along(weights, route) == dist[route[0]][final]
  {
    var last := route[|route| - 1];
    hide Solved;
    Fits(weights, latencies, dist, lat, inter);
    RouteCost(weights, dist, route, final);
    if last != final {
      Hop(weights, latencies, dist, lat, inter, last, final);
    }
  }

  // A link without weight between two switches is never taken: the tables hold nothing for a
  // message from one to the other.
  lemma NoHop(weights: Matrix, latencies: Matrix, dist: Matrix, lat: Matrix, inter: Matrix, i: nat, j: nat)
    requires Solved(weights, latencies, dist, lat, inter) && i < |weights| && j < |weights| && weights[i][j] == 0
    ensures dist[i][j] == 0 && !HasHop(weights, dist, i, j)
  {
    hide Solved;
    Fits(weights, latencies, dist, lat, inter);
  }

  // ----- The weight matrix -----

  function WeightOf(links: LinkMap, i: nat, j: nat): int {
    if (i, j) in links then links[(i, j)].weight else if i == j then 0 else INFINITE_LATENCY
  }

  function LatencyOf(links: LinkMap, i: nat, j: nat): int {
    if (i, j) in links then links[(i, j)].latency else -1
  }

  function Weights(links: LinkMap, n: nat): (m: Matrix)
    ensures Square(m, n) && forall i, j :: 0 <= i < n && 0 <= j < n ==> m[i][j] == WeightOf(links, i, j)
  {
    seq(n, i requires 0 <= i => seq(n, j requires 0 <= j => WeightOf(links, i, j)))
  }

  function Latencies(links: LinkMap, n: nat): (m: Matrix)
    ensures Square(m, n) && forall i, j :: 0 <= i < n && 0 <= j < n ==> m[i][j] == LatencyOf(links, i, j)
  {
    seq(n, i requires 0 <= i => seq(n, j requires 0 <= j => LatencyOf(links, i, j)))
  }

  // ----- Making the tables -----

  // One past the highest switch that a link touches.
  ghost predicate IsSwitchCount(links: LinkMap, n: nat) {
    n >= 1 && (forall k :: k in links ==> k.0 < n && k.1 < n) &&
    (n == 1 || exists k :: k in links && (k.0 == n - 1 || k.1 == n - 1))
  }

  method CountSwitches(links: LinkMap) returns (n: nat)
    ensures IsSwitchCount(links, n)
  {
    var maxSwitch := 0;
    var rest := links.Keys;
    while rest != {}
      invariant rest <= links.Keys
      invariant forall k :: k in links && k !in rest ==> k.0 <= maxSwitch && k.1 <= maxSwitch
      invariant maxSwitch == 0 || exists k :: k in links && (k.0 == maxSwitch || k.1 == maxSwitch)
      decreases |rest|
    {
      var key :| key in rest;
      if maxSwitch < key.0 {
        maxSwitch := key.0;
      }
      if maxSwitch < key.1 {
        maxSwitch := key.1;
      }
      rest := rest - {key};
    }
    n := maxSwitch + 1;
  }

  // Machines are pairs of a type and a number; counts holds how many there are of each type.
  function Machines(counts: seq<nat>, m: nat): (d: nat)
    requires m <= |counts|
  {
    if m == 0 then 0 else Machines(counts, m - 1) + counts[m - 1]
  }

  lemma {:induction false} MachinesGrow(counts: seq<nat>, m: nat, m': nat)
    requires m <= m' <= |counts|
    ensures Machines(counts, m) <= Machines(counts, m')
  {
    if m < m' {
      MachinesGrow(counts, m, m' - 1);
    }
  }

  // The switch that stands for the output queue of machine (m, i).
  function Output(counts: seq<nat>, m: nat, i: nat): nat
    requires m < |counts|
  {
    Machines(counts, m) + i + Machines(counts, |counts|)
  }

  // The link from src to next is on a cheapest path to the output queue of machine (m, i).
  ghost predicate Leads(weights: Matrix, dist: Matrix, counts: seq<nat>, src: nat, next: nat, m: nat, i: nat)
    requires Square(weights, |weights|) && Square(dist, |weights|) && src < |weights| && next < |weights|
    requires 2 * Machines(counts, |counts|) <= |weights|
  {
    m < |counts| && i < counts[m] && (
      MachinesGrow(counts, m + 1, |counts|);
      weights[src][next] + dist[next][Output(counts, m, i)] == dist[src][Output(counts, m, i)]
    )
  }

  method ShortestPathToNode(src: nat, next: nat, weights: array2<int>, dist: array2<int>, counts: seq<nat>) returns (result: set<(nat, nat)>)
    requires weights.Length0 == weights.Length1 == dist.Length0 == dist.Length1
    requires src < weights.Length0 && next < weights.Length0 && 2 * Machines(counts, |counts|) <= weights.Length0
    ensures forall m: nat, i: nat :: (m, i) in result <==> Leads(Snap(weights), Snap(dist), counts, src, next, m, i)
  {
    result := {};
    var d := 0;
    var maxMachines := Machines(counts, |counts|);
    var m := 0;
    while m < |counts|
      invariant m <= |counts| && d == Machines(counts, m)
      invariant forall x: nat, y: nat :: (x, y) in result <==> x < m && Leads(Snap(weights), Snap(dist), counts, src, next, x, y)
    {
      var i := 0;
      while i < counts[m]
        invariant i <= counts[m] && d == Machines(counts, m) + i
        invariant forall x: nat, y: nat :: (x, y) in result <==> (x < m || (x == m && y < i)) && Leads(Snap(weights), Snap(dist), counts, src, next, x, y)
      {
        MachinesGrow(counts, m + 1, |counts|);
        if weights[src, next] + dist[next, d + maxMachines] == dist[src, d + maxMachines] {
          result := result + {(m, i)};
        }
        d := d + 1;
        i := i + 1;
      }
      m := m + 1;
    }
  }

  // The matrices before the relaxation.
  method FillMatrices(links: LinkMap, n: nat) returns (weights: array2<int>, latencies: array2<int>, interSwitches: array2<int>)
    requires forall k :: k in links ==> k.0 < n && k.1 < n
    ensures fresh(weights) && fresh(latencies) && fresh(interSwitches)
    ensures weights != latencies && weights != interSwitches && latencies != interSwitches
    ensures weights.Length0 == weights.Length1 == latencies.Length0 == latencies.Length1 == n
    ensures interSwitches.Length0 == interSwitches.Length1 == n
    ensures forall i, j :: 0 <= i < n && 0 <= j < n ==>
              weights[i, j] == WeightOf(links, i, j) && latencies[i, j] == LatencyOf(links, i, j) && interSwitches[i, j] == 0
  {
    weights := new int[n, n]((i, j) => if i == j then 0 else INFINITE_LATENCY);
    latencies := new int[n, n]((i, j) => -1);
    interSwitches := new int[n, n]((i, j) => 0);
    var rest := links.Keys;
    while rest != {}
      invariant rest <= links.Keys
      invariant forall i, j :: 0 <= i < n && 0 <= j < n ==> interSwitches[i, j] == 0
      invariant forall i: nat, j: nat :: i < n && j < n && (i, j) !in rest ==>
                  weights[i, j] == WeightOf(links, i, j) && latencies[i, j] == LatencyOf(links, i, j)
      decreases |rest|
    {
      var key :| key in rest;
      latencies[key.0, key.1] := links[key].latency;
      weights[key.0, key.1] := links[key].weight;
      rest := rest - {key};
    }
  }

  // Every link in use, with the machines it leads to.
  ghost predicate IsRouting(links: LinkMap, n: nat, counts: seq<nat>, dist: Matrix, tables: map<(nat, nat), set<(nat, nat)>>)
    requires Square(dist, n) && 2 * Machines(counts, |counts|) <= n
  {
    (forall i: nat, j: nat :: (i, j) in tables <==> i < n && j < n && WeightOf(links, i, j) > 0 && WeightOf(links, i, j) != INFINITE_LATENCY) &&
    forall i: nat, j: nat, m: nat, x: nat :: (i, j) in tables && i < n && j < n ==>
      ((m, x) in tables[(i, j)] <==> Leads(Weights(links, n), dist, counts, i, j, m, x))
  }

  method CreateLinks(links: LinkMap, counts: seq<nat>)
    returns (tables: map<(nat, nat), set<(nat, nat)>>, n: nat, dist: array2<int>, latencies: array2<int>, interSwitches: array2<int>)
    requires forall k :: k in links ==> links[k].weight >= 0
    requires forall n :: IsSwitchCount(links, n) ==> 2 * Machines(counts, |counts|) <= n
    ensures IsSwitchCount(links, n)
    ensures dist.Length0 == dist.Length1 == latencies.Length0 == latencies.Length1 == n
    ensures interSwitches.Length0 == interSwitches.Length1 == n
    ensures Solved(Weights(links, n), Latencies(links, n), Snap(dist), Snap(latencies), Snap(interSwitches))
    ensures IsRouting(links, n, counts, Snap(dist), tables)
  {
    hide Solved, IsRouting, Snap;
    n := CountSwitches(links);
    var weights;
    weights, latencies, interSwitches := FillMatrices(links, n);
    dist := new int[n, n]((i: nat, j: nat) requires i < n && j < n reads weights => weights[i, j]);
    SameEntries(Snap(dist), Weights(links, n), n);
    SameEntries(Snap(weights), Weights(links, n), n);
    SameEntries(Snap(latencies), Latencies(links, n), n);
    ExtendShortestPath(dist, latencies, interSwitches);
    tables := MakeTables(links, n, weights, dist, counts);
  }

  method MakeTables(links: LinkMap, n: nat, weights: array2<int>, dist: array2<int>, counts: seq<nat>)
    returns (tables: map<(nat, nat), set<(nat, nat)>>)
    requires weights.Length0 == weights.Length1 == dist.Length0 == dist.Length1 == n
    requires Snap(weights) == Weights(links, n) && 2 * Machines(counts, |counts|) <= n
    ensures IsRouting(links, n, counts, Snap(dist), tables)
  {
    hide Leads;
    tables := map[];
    var i := 0;
    while i < n
      invariant i <= n
      invariant forall a: nat, b: nat :: (a, b) in tables <==> a < i && b < n && WeightOf(links, a, b) > 0 && WeightOf(links, a, b) != INFINITE_LATENCY
      invariant forall a: nat, b: nat, m: nat, x: nat :: (a, b) in tables && a < i && b < n ==>
                  ((m, x) in tables[(a, b)] <==> Leads(Weights(links, n), Snap(dist), counts, a, b, m, x))
    {
      var j := 0;
      while j < n
        invariant j <= n
        invariant forall a: nat, b: nat :: (a, b) in tables <==> a < n && b < n && (a < i || (a == i && b < j)) && WeightOf(links, a, b) > 0 && WeightOf(links, a, b) != INFINITE_LATENCY
        invariant forall a: nat, b: nat, m: nat, x: nat :: (a, b) in tables && a <= i && b < n ==>
                    ((m, x) in tables[(a, b)] <==> Leads(Weights(links, n), Snap(dist), counts, a, b, m, x))
      {
        var weight := weights[i, j];
        if weight > 0 && weight != INFINITE_LATENCY {
          var destinations := ShortestPathToNode(i, j, weights, dist, counts);
          tables := tables[(i, j) := destinations];
        }
        j := j + 1;
      }
      i := i + 1;
    }
  }

  // The tables hold exactly the hops that lead to a machine.
  lemma {:induction false} TablesHoldHops(links: LinkMap, n: nat, counts: seq<nat>, dist: Matrix, tables: map<(nat, nat), set<(nat, nat)>>,
                       s: nat, next: nat, m: nat, i: nat)
    requires Square(dist, n) && 2 * Machines(counts, |counts|) <= n && IsRouting(links, n, counts, dist, tables)
    requires s < n && m < |counts| && i < counts[m]
    ensures Output(counts, m, i) < n
    ensures (s, next) in tables && (m, i) in tables[(s, next)] <==> NextHop(Weights(links, n), dist, s, next, Output(counts, m, i))
  {
    hide Leads, Output, Machines;
    OutputInRange(counts, m, i);
    if next < n {
      LeadsMeans(Weights(links, n), dist, counts, s, next, m, i);
    }
  }

  lemma {:induction false} OutputInRange(counts: seq<nat>, m: nat, i: nat)
    requires m < |counts| && i < counts[m]
    ensures Output(counts, m, i) < 2 * Machines(counts, |counts|)
  {
    MachinesGrow(counts, m + 1, |counts|);
  }

  lemma {:induction false} LeadsMeans(weights: Matrix, dist: Matrix, counts: seq<nat>, src: nat, next: nat, m: nat, i: nat)
    requires Square(weights, |weights|) && Square(dist, |weights|) && src < |weights| && next < |weights|
    requires 2 * Machines(counts, |counts|) <= |weights| && m < |counts| && i < counts[m]
    ensures Output(counts, m, i) < |weights|
    ensures Leads(weights, dist, counts, src, next, m, i) <==>
            weights[src][next] + dist[next][Output(counts, m, i)] == dist[src][Output(counts, m, i)]
  {
    OutputInRange(counts, m, i);
  }
}
