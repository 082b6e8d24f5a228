/**
 Which networks deliver every message: a message goes from the input of one machine to the output
 of another and follows the routing tables as long as they lead on.
 */
module Delivery {
  import opened ShortestPath
  import opened Routing

  // ----- Machines and routers -----

  // With m machines, machine k is switch k where it sends and switch m + k where it receives; the
  // switches from 2 * m on are routers.  Both switches of a machine are linked to the same router
  // and to nothing else.
  ghost predicate WiredAt(weights: Matrix, m: nat, router: nat, input: nat, output: nat)
    requires Square(weights, |weights|) && input < |weights| && output < |weights|
  {
    && 2 * m <= router < |weights| && weights[output][output] == 0
    && (forall x: nat :: x < |weights| && x != input && x != router ==> weights[input][x] >= INFINITE_LATENCY)
    && (forall x: nat :: x < |weights| && x != output && x != router ==> weights[x][output] >= INFINITE_LATENCY)
    && (forall x: nat :: x < |weights| && x != input ==> weights[x][input] >= INFINITE_LATENCY)
    && (forall x: nat :: x < |weights| && x != output ==> weights[output][x] >= INFINITE_LATENCY)
  }

  ghost predicate Wired(weights: Matrix, m: nat, at: seq<nat>) {
    Square(weights, |weights|) && |at| == m && 2 * m <= |weights| && forall k :: 0 <= k < m ==> WiredAt(weights, m, at[k], k, m + k)
  }

  // The links of any two machines together cost less than a missing link.
  ghost predicate ShortLinks(weights: Matrix, m: nat, at: seq<nat>)
    requires Wired(weights, m, at)
  {
    forall k, f :: 0 <= k < m && 0 <= f < m ==> weights[k][at[k]] + weights[at[f]][m + f] < INFINITE_LATENCY
  }

  ghost predicate AllHaveMachines(n: nat, m: nat, at: seq<nat>) {
    forall r: nat :: 2 * m <= r < n ==> r in at
  }

  // ----- The last and the first link of a walk -----

  // A walk to t from elsewhere costs no less than the cheapest link to t.
  lemma {:induction false} LastLink(weights: Matrix, w: seq<nat>, t: nat, c: int)
    requires Square(weights, |weights|) && t < |weights|
    requires forall i, j :: 0 <= i < |weights| && 0 <= j < |weights| ==> weights[i][j] >= 0
    requires forall x: nat :: x < |weights| && x != t ==> weights[x][t] >= c
    requires |w| >= 2 && (forall k :: 0 <= k < |w| ==> w[k] < |weights|) && w[0] != t && w[|w| - 1] == t
    ensures Along(weights, w) >= c
    decreases |w|
  {
    if w[1] == t {
      AlongPositive(weights, w[1..]);
    } else {
      LastLink(weights, w[1..], t, c);
    }
  }

  lemma {:induction false} AlongPositive(weights: Matrix, w: seq<nat>)
    requires Square(weights, |weights|) && forall k :: 0 <= k < |w| ==> w[k] < |weights|
    requires forall i, j :: 0 <= i < |weights| && 0 <= j < |weights| ==> weights[i][j] >= 0
    ensures Along(weights, w) >= 0
  {
    if |w| >= 2 {
      AlongPositive(weights, w[1..]);
    }
  }

  // A walk from s, which is linked to r only, costs as much as the link and the way on.
  lemma {:induction false} FirstLink(weights: Matrix, latencies: Matrix, dist: Matrix, lat: Matrix, inter: Matrix, w: seq<nat>, s: nat, r: nat, t: nat)
    requires Solved(weights, latencies, dist, lat, inter) && s < |weights| && r < |weights| && t < |weights| && s != t && r != t
    requires forall x: nat :: x < |weights| && x != s && x != r ==> weights[s][x] >= INFINITE_LATENCY
    requires IsWalk(|weights|, w, s, t)
    ensures Square(weights, |weights|) && Square(dist, |weights|)
    ensures Along(weights, w) >= INFINITE_LATENCY || Along(weights, w) >= weights[s][r] + dist[r][t]
    decreases |w|
  {
    hide Solved;
    Fits(weights, latencies, dist, lat, inter);
    AlongPositive(weights, w[1..]);
    if |w| > 2 {
      if w[1] == s {
        FirstLink(weights, latencies, dist, lat, inter, w[1..], s, r, t);
      } else if w[1] == r {
        assert IsWalk(|weights|, w[1..], r, t);
        Least(weights, latencies, dist, lat, inter, w[1..], r, t);
      }
    }
  }

  // ----- Where a message gets stuck -----

  lemma WalkTo(weights: Matrix, latencies: Matrix, dist: Matrix, lat: Matrix, inter: Matrix, s: nat, r: nat, t: nat)
    requires Solved(weights, latencies, dist, lat, inter) && s < |weights| && r < |weights| && t < |weights|
    ensures Square(weights, |weights|) && Square(dist, |weights|)
    ensures dist[s][t] <= weights[s][r] + weights[r][t]
  {
    hide Solved;
    Fits(weights, latencies, dist, lat, inter);
    StepBound(weights, latencies, dist, lat, inter, s, r, t);
  }

  // From an input the tables lead to its router, and only over a link that has weight.
  lemma InputHop(weights: Matrix, latencies: Matrix, dist: Matrix, lat: Matrix, inter: Matrix, m: nat, at: seq<nat>, k: nat, f: nat, next: nat)
    requires Solved(weights, latencies, dist, lat, inter) && Wired(weights, m, at) && k < m && f < m
    requires Square(dist, |weights|) && weights[k][at[k]] + dist[at[k]][m + f] < INFINITE_LATENCY
    ensures dist[k][m + f] == weights[k][at[k]] + dist[at[k]][m + f]
    ensures NextHop(weights, dist, k, next, m + f) <==> next == at[k] && weights[k][at[k]] > 0
  {
    hide Solved;
    Fits(weights, latencies, dist, lat, inter);
    assert WiredAt(weights, m, at[k], k, m + k) && WiredAt(weights, m, at[f], f, m + f);
    var w := CheapestWalk(weights, latencies, dist, lat, inter, k, m + f);
    FirstLink(weights, latencies, dist, lat, inter, w, k, at[k], m + f);
    StepBound(weights, latencies, dist, lat, inter, k, at[k], m + f);
  }

  // A link of weight 0 to the router of f strands what is at its other end.
  lemma RouterStuck(weights: Matrix, latencies: Matrix, dist: Matrix, lat: Matrix, inter: Matrix, m: nat, at: seq<nat>, i: nat, f: nat)
    requires Solved(weights, latencies, dist, lat, inter) && Wired(weights, m, at) && f < m && 2 * m <= i < |weights| && i != at[f]
    requires at[f] < |weights| && weights[i][at[f]] == 0 && weights[at[f]][m + f] < INFINITE_LATENCY
    ensures dist[i][m + f] <= weights[at[f]][m + f] && !HasHop(weights, dist, i, m + f)
  {
    hide Solved;
    var t, c := m + f, weights[at[f]][m + f];
    Fits(weights, latencies, dist, lat, inter);
    assert WiredAt(weights, m, at[f], f, m + f);
    WalkTo(weights, latencies, dist, lat, inter, i, at[f], t);
    forall next | NextHop(weights, dist, i, next, t)
      ensures false
    {
      if next != t {
        var w := CheapestWalk(weights, latencies, dist, lat, inter, next, t);
        LastLink(weights, w, t, c);
      }
    }
  }

  // ----- Messages -----

  // However a message from s follows the tables for final, it is stuck only at final.
  ghost predicate Arrives(weights: Matrix, dist: Matrix, s: nat, final: nat)
    requires Square(weights, |weights|) && Square(dist, |weights|) && s < |weights| && final < |weights|
  {
    forall route :: IsRoute(weights, dist, route, final) && route[0] == s && route[|route| - 1] != final ==>
      HasHop(weights, dist, route[|route| - 1], final)
  }

  // What is stuck at the router of machine k does not arrive from k.
  lemma NotArriving(weights: Matrix, latencies: Matrix, dist: Matrix, lat: Matrix, inter: Matrix, m: nat, at: seq<nat>, k: nat, f: nat)
    requires Solved(weights, latencies, dist, lat, inter) && Wired(weights, m, at) && k < m && f < m
    requires Square(dist, |weights|) && weights[k][at[k]] + dist[at[k]][m + f] < INFINITE_LATENCY
    requires weights[k][at[k]] == 0 || !HasHop(weights, dist, at[k], m + f)
    ensures dist[k][m + f] < INFINITE_LATENCY && !Arrives(weights, dist, k, m + f)
  {
    hide Solved, NextHop, HasHop;
    Fits(weights, latencies, dist, lat, inter);
    assert WiredAt(weights, m, at[k], k, m + k);
    var final, route: seq<nat> := m + f, if weights[k][at[k]] == 0 then [k] else [k, at[k]];
    InputHop(weights, latencies, dist, lat, inter, m, at, k, f, at[k]);
    if weights[k][at[k]] == 0 {
      InputStuck(weights, latencies, dist, lat, inter, m, at, k, f);
    } else {
      assert NextHop(weights, dist, route[0], route[1], final);
    }
    assert IsRoute(weights, dist, route, final);
  }

  lemma InputStuck(weights: Matrix, latencies: Matrix, dist: Matrix, lat: Matrix, inter: Matrix, m: nat, at: seq<nat>, k: nat, f: nat)
    requires Solved(weights, latencies, dist, lat, inter) && Wired(weights, m, at) && k < m && f < m
    requires Square(dist, |weights|) && weights[k][at[k]] == 0 && dist[at[k]][m + f] < INFINITE_LATENCY
    ensures !HasHop(weights, dist, k, m + f)
  {
    hide Solved, NextHop, WiredAt;
    var final := m + f;
    if next :| NextHop(weights, dist, k, next, final) {
      InputHop(weights, latencies, dist, lat, inter, m, at, k, f, next);
    }
  }

  // A message between two machines that can arrive does.
  ghost predicate Reliable(weights: Matrix, dist: Matrix, m: nat, k: nat, f: nat)
    requires Square(weights, |weights|) && Square(dist, |weights|) && 2 * m <= |weights| && k < m && f < m
  {
    dist[k][m + f] < INFINITE_LATENCY ==> Arrives(weights, dist, k, m + f)
  }

  // Messages between machines at the two ends of a link of weight 0.
  lemma ZeroBetweenRouters(weights: Matrix, latencies: Matrix, dist: Matrix, lat: Matrix, inter: Matrix, m: nat, at: seq<nat>, k: nat, f: nat)
    requires Solved(weights, latencies, dist, lat, inter) && Square(dist, |weights|) && Wired(weights, m, at) && ShortLinks(weights, m, at)
    requires k < m && f < m && at[k] != at[f] && at[k] < |weights| && at[f] < |weights| && weights[at[k]][at[f]] == 0
    ensures !Reliable(weights, dist, m, k, f)
  {
    hide Solved, NextHop, HasHop, Arrives;
    Fits(weights, latencies, dist, lat, inter);
    assert WiredAt(weights, m, at[k], k, m + k) && WiredAt(weights, m, at[f], f, m + f);
    assert weights[k][at[k]] + weights[at[f]][m + f] < INFINITE_LATENCY;
    RouterStuck(weights, latencies, dist, lat, inter, m, at, at[k], f);
    NotArriving(weights, latencies, dist, lat, inter, m, at, k, f);
  }

  // A message of a machine to itself over links of which one has weight 0.
  lemma ZeroAtMachine(weights: Matrix, latencies: Matrix, dist: Matrix, lat: Matrix, inter: Matrix, m: nat, at: seq<nat>, k: nat)
    requires Solved(weights, latencies, dist, lat, inter) && Square(dist, |weights|) && Wired(weights, m, at) && ShortLinks(weights, m, at)
    requires k < m && at[k] < |weights| && (weights[k][at[k]] == 0 || weights[at[k]][m + k] == 0)
    ensures !Reliable(weights, dist, m, k, k)
  {
    hide Solved, NextHop, HasHop, Arrives;
    Fits(weights, latencies, dist, lat, inter);
    assert WiredAt(weights, m, at[k], k, m + k);
    assert weights[k][at[k]] + weights[at[k]][m + k] < INFINITE_LATENCY;
    if weights[at[k]][m + k] == 0 {
      NoHop(weights, latencies, dist, lat, inter, at[k], m + k);
    }
    NotArriving(weights, latencies, dist, lat, inter, m, at, k, k);
  }

  // Every link of weight 0 keeps some message from arriving, if every router has a machine.
  lemma ZeroWeightStrands(weights: Matrix, latencies: Matrix, dist: Matrix, lat: Matrix, inter: Matrix, m: nat, at: seq<nat>, i: nat, j: nat)
    returns (k: nat, f: nat)
    requires Solved(weights, latencies, dist, lat, inter) && Square(dist, |weights|)
    requires Wired(weights, m, at) && ShortLinks(weights, m, at) && AllHaveMachines(|weights|, m, at)
    requires i < |weights| && j < |weights| && i != j && weights[i][j] == 0
    ensures k < m && f < m && !Reliable(weights, dist, m, k, f)
  {
    hide Solved, Reliable, ShortLinks;
    LinkKinds(weights, m, at, i, j);
    if i < m {
      k, f := i, i;
      ZeroAtMachine(weights, latencies, dist, lat, inter, m, at, k);
    } else if j < 2 * m {
      k, f := j - m, j - m;
      ZeroAtMachine(weights, latencies, dist, lat, inter, m, at, k);
    } else {
      k :| 0 <= k < m && at[k] == i;
      f :| 0 <= f < m && at[f] == j;
      ZeroBetweenRouters(weights, latencies, dist, lat, inter, m, at, k, f);
    }
  }

  // A link of weight 0 leads from an input to its router, from a router to an output at it, or
  // from router to router.
  lemma LinkKinds(weights: Matrix, m: nat, at: seq<nat>, i: nat, j: nat)
    requires Wired(weights, m, at) && AllHaveMachines(|weights|, m, at)
    requires i < |weights| && j < |weights| && i != j && weights[i][j] == 0
    ensures if i < m then j == at[i]
            else if j < 2 * m then m <= j && at[j - m] == i
            else i in at && j in at
  {
    if m > 0 {
      var a := if i < m then i else if i < 2 * m then i - m else 0;
      var b := if j < m then j else if j < 2 * m then j - m else 0;
      assert WiredAt(weights, m, at[a], a, m + a) && WiredAt(weights, m, at[b], b, m + b);
    }
  }

  ghost predicate AllReliable(weights: Matrix, dist: Matrix, m: nat)
    requires Square(weights, |weights|) && Square(dist, |weights|) && 2 * m <= |weights|
  {
    forall k: nat, f: nat :: k < m && f < m ==> Reliable(weights, dist, m, k, f)
  }

  // Every message that can arrive does, exactly if all links have weight.
  lemma ReliableIff(weights: Matrix, latencies: Matrix, dist: Matrix, lat: Matrix, inter: Matrix, m: nat, at: seq<nat>)
    requires Solved(weights, latencies, dist, lat, inter) && Square(dist, |weights|)
    requires Wired(weights, m, at) && ShortLinks(weights, m, at) && AllHaveMachines(|weights|, m, at)
    ensures AllReliable(weights, dist, m) <==> Positive(weights)
  {
    hide Solved, Reliable, Wired, ShortLinks, AllHaveMachines;
    WiredSquare(weights, m, at);
    if Positive(weights) {
      forall k: nat, f: nat | k < m && f < m
        ensures Reliable(weights, dist, m, k, f)
      {
        AllArrive(weights, latencies, dist, lat, inter, m, at, k, f);
      }
    } else {
      Fits(weights, latencies, dist, lat, inter);
      var i: nat, j: nat :| i < |weights| && j < |weights| && i != j && weights[i][j] <= 0;
      var k, f := ZeroWeightStrands(weights, latencies, dist, lat, inter, m, at, i, j);
    }
  }

  lemma WiredSquare(weights: Matrix, m: nat, at: seq<nat>)
    requires Wired(weights, m, at)
    ensures Square(weights, |weights|) && 2 * m <= |weights|
  {
  }

  // The one half needs no machine at every router.
  lemma AllArrive(weights: Matrix, latencies: Matrix, dist: Matrix, lat: Matrix, inter: Matrix, m: nat, at: seq<nat>, k: nat, f: nat)
    requires Solved(weights, latencies, dist, lat, inter) && Square(dist, |weights|) && Wired(weights, m, at) && Positive(weights)
    requires k < m && f < m
    ensures Reliable(weights, dist, m, k, f)
  {
    hide Solved, NextHop, HasHop;
    assert WiredAt(weights, m, at[f], f, m + f);
    forall route | dist[k][m + f] < INFINITE_LATENCY && IsRoute(weights, dist, route, m + f) && route[0] == k && route[|route| - 1] != m + f
      ensures HasHop(weights, dist, route[|route| - 1], m + f)
    {
      RoutesDeliver(weights, latencies, dist, lat, inter, route, m + f);
    }
  }

  // ----- The routing tables -----

  type Tables = map<(nat, nat), set<(nat, nat)>>

  // A message for machine (mt, i) can take the link from s to next.
  ghost predicate Sends(tables: Tables, s: nat, next: nat, mt: nat, i: nat) {
    (s, next) in tables && (mt, i) in tables[(s, next)]
  }

  ghost predicate Follows(tables: Tables, route: seq<nat>, mt: nat, i: nat) {
    route != [] && forall k, k' :: 0 <= k < |route| && k' == k + 1 && k' < |route| ==> Sends(tables, route[k], route[k'], mt, i)
  }

  ghost predicate LeadsOn(tables: Tables, s: nat, mt: nat, i: nat) {
    exists next :: Sends(tables, s, next, mt, i)
  }

  // A message from machine k for machine (mt, i) is stuck only at the output of that machine.
  ghost predicate Delivered(tables: Tables, counts: seq<nat>, k: nat, mt: nat, i: nat)
    requires mt < |counts|
  {
    forall route :: Follows(tables, route, mt, i) && route[0] == k && route[|route| - 1] != Output(counts, mt, i) ==>
      LeadsOn(tables, route[|route| - 1], mt, i)
  }

  // Following the tables is taking the hops of cheapest paths.
  lemma {:induction false} DeliveredIff(links: LinkMap, n: nat, counts: seq<nat>, dist: Matrix, tables: Tables, k: nat, mt: nat, i: nat)
    requires Square(dist, n) && 2 * Machines(counts, |counts|) <= n && IsRouting(links, n, counts, dist, tables)
    requires k < n && mt < |counts| && i < counts[mt]
    ensures Output(counts, mt, i) < n
    ensures Delivered(tables, counts, k, mt, i) <==> Arrives(Weights(links, n), dist, k, Output(counts, mt, i))
  {
    hide IsRouting, NextHop, Output, Machines, HasHop, LeadsOn, Sends;
    var weights, final := Weights(links, n), Output(counts, mt, i);
    OutputInRange(counts, mt, i);
    if Arrives(weights, dist, k, final) {
      forall route | Follows(tables, route, mt, i) && route[0] == k && route[|route| - 1] != final
        ensures LeadsOn(tables, route[|route| - 1], mt, i)
      {
        FollowsIsRoute(links, n, counts, dist, tables, route, mt, i);
        LeadsOnIsHop(links, n, counts, dist, tables, route[|route| - 1], mt, i);
      }
    }
    if Delivered(tables, counts, k, mt, i) {
      forall route | IsRoute(weights, dist, route, final) && route[0] == k && route[|route| - 1] != final
        ensures HasHop(weights, dist, route[|route| - 1], final)
      {
        FollowsIsRoute(links, n, counts, dist, tables, route, mt, i);
        LeadsOnIsHop(links, n, counts, dist, tables, route[|route| - 1], mt, i);
      }
    }
  }

  lemma {:induction false} FollowsIsRoute(links: LinkMap, n: nat, counts: seq<nat>, dist: Matrix, tables: Tables, route: seq<nat>, mt: nat, i: nat)
    requires Square(dist, n) && 2 * Machines(counts, |counts|) <= n && IsRouting(links, n, counts, dist, tables)
    requires mt < |counts| && i < counts[mt] && route != [] && route[0] < n
    ensures Output(counts, mt, i) < n
    ensures Follows(tables, route, mt, i) <==> IsRoute(Weights(links, n), dist, route, Output(counts, mt, i))
    ensures Follows(tables, route, mt, i) ==> route[|route| - 1] < n
  {
    hide IsRouting, NextHop, Output, Machines;
    OutputInRange(counts, mt, i);
    forall s: nat, next: nat | s < n
      ensures Sends(tables, s, next, mt, i) <==> NextHop(Weights(links, n), dist, s, next, Output(counts, mt, i))
      ensures Sends(tables, s, next, mt, i) ==> next < n
    {
      SendsIsHop(links, n, counts, dist, tables, s, next, mt, i);
    }
    if Follows(tables, route, mt, i) {
      InNetwork(tables, n, route, mt, i);
    }
  }

  lemma {:induction false} SendsIsHop(links: LinkMap, n: nat, counts: seq<nat>, dist: Matrix, tables: Tables, s: nat, next: nat, mt: nat, i: nat)
    requires Square(dist, n) && 2 * Machines(counts, |counts|) <= n && IsRouting(links, n, counts, dist, tables)
    requires mt < |counts| && i < counts[mt] && s < n
    ensures Output(counts, mt, i) < n
    ensures Sends(tables, s, next, mt, i) <==> NextHop(Weights(links, n), dist, s, next, Output(counts, mt, i))
    ensures Sends(tables, s, next, mt, i) ==> next < n
  {
    hide IsRouting;
    TablesHoldHops(links, n, counts, dist, tables, s, next, mt, i);
  }

  lemma {:induction false} InNetwork(tables: Tables, n: nat, route: seq<nat>, mt: nat, i: nat)
    requires Follows(tables, route, mt, i) && route[0] < n
    requires forall s: nat, next: nat :: s < n && Sends(tables, s, next, mt, i) ==> next < n
    ensures forall k :: 0 <= k < |route| ==> route[k] < n
    decreases |route|
  {
    hide Sends;
    if |route| > 1 {
      var front := route[..|route| - 1];
      InNetwork(tables, n, front, mt, i);
      assert Sends(tables, route[|route| - 2], route[|route| - 1], mt, i) && front[|front| - 1] == route[|route| - 2];
    }
  }

  lemma {:induction false} LeadsOnIsHop(links: LinkMap, n: nat, counts: seq<nat>, dist: Matrix, tables: Tables, s: nat, mt: nat, i: nat)
    requires Square(dist, n) && 2 * Machines(counts, |counts|) <= n && IsRouting(links, n, counts, dist, tables)
    requires mt < |counts| && i < counts[mt] && s < n
    ensures Output(counts, mt, i) < n
    ensures LeadsOn(tables, s, mt, i) <==> HasHop(Weights(links, n), dist, s, Output(counts, mt, i))
  {
    hide IsRouting, NextHop, Output, Machines, Sends;
    OutputInRange(counts, mt, i);
    forall next: nat
      ensures Sends(tables, s, next, mt, i) <==> NextHop(Weights(links, n), dist, s, next, Output(counts, mt, i))
    {
      SendsIsHop(links, n, counts, dist, tables, s, next, mt, i);
    }
  }

  // Every number below the number of machines belongs to a machine.
  lemma {:induction false} MachineAt(counts: seq<nat>, m: nat, k: nat) returns (mt: nat, i: nat)
    requires m <= |counts| && k < Machines(counts, m)
    ensures mt < m && i < counts[mt] && Machines(counts, mt) + i == k
  {
    if k < Machines(counts, m - 1) {
      mt, i := MachineAt(counts, m - 1, k);
    } else {
      mt, i := m - 1, k - Machines(counts, m - 1);
    }
  }

  // A message within reach that follows the tables is delivered.
  ghost predicate Served(n: nat, counts: seq<nat>, dist: Matrix, tables: Tables, k: nat, mt: nat, i: nat)
    requires 2 * Machines(counts, |counts|) <= n && Square(dist, n) && k < n && mt < |counts| && i < counts[mt]
  {
    OutputInRange(counts, mt, i);
    dist[k][Output(counts, mt, i)] < INFINITE_LATENCY ==> Delivered(tables, counts, k, mt, i)
  }

  ghost predicate AllServed(n: nat, counts: seq<nat>, dist: Matrix, tables: Tables)
    requires 2 * Machines(counts, |counts|) <= n && Square(dist, n)
  {
    forall k: nat, mt: nat, i: nat :: k < Machines(counts, |counts|) && mt < |counts| && i < counts[mt] ==>
      Served(n, counts, dist, tables, k, mt, i)
  }

  lemma {:induction false} ServedIff(links: LinkMap, n: nat, counts: seq<nat>, dist: Matrix, tables: Tables, k: nat, mt: nat, i: nat)
    requires var m := Machines(counts, |counts|); 2 * m <= n && Square(dist, n) && IsRouting(links, n, counts, dist, tables) && k < m
    requires mt < |counts| && i < counts[mt]
    ensures var m, f := Machines(counts, |counts|), Machines(counts, mt) + i;
            f < m && (Served(n, counts, dist, tables, k, mt, i) <==> Reliable(Weights(links, n), dist, m, k, f))
  {
    hide IsRouting, Arrives, Delivered;
    OutputInRange(counts, mt, i);
    DeliveredIff(links, n, counts, dist, tables, k, mt, i);
  }

  // In a network in which every router has a machine, the tables deliver every message between
  // machines within reach of each other exactly if no link has weight 0.
  lemma {:induction false} TablesDeliverIff(links: LinkMap, n: nat, counts: seq<nat>, dist: Matrix, lat: Matrix, inter: Matrix, tables: Tables, at: seq<nat>)
    requires var m := Machines(counts, |counts|);
             && 2 * m <= n && Square(dist, n) && IsRouting(links, n, counts, dist, tables)
             && Solved(Weights(links, n), Latencies(links, n), dist, lat, inter)
             && Wired(Weights(links, n), m, at) && ShortLinks(Weights(links, n), m, at) && AllHaveMachines(n, m, at)
    ensures AllServed(n, counts, dist, tables) <==> Positive(Weights(links, n))
  {
    hide IsRouting, Solved, Wired, ShortLinks, Positive, Reliable, Served;
    var weights, m := Weights(links, n), Machines(counts, |counts|);
    ReliableIff(weights, Latencies(links, n), dist, lat, inter, m, at);
    if AllReliable(weights, dist, m) {
      forall k: nat, mt: nat, i: nat | k < m && mt < |counts| && i < counts[mt]
        ensures Served(n, counts, dist, tables, k, mt, i)
      {
        ServedIff(links, n, counts, dist, tables, k, mt, i);
      }
    }
    if AllServed(n, counts, dist, tables) {
      forall k: nat, f: nat | k < m && f < m
        ensures Reliable(weights, dist, m, k, f)
      {
        var mt, i := MachineAt(counts, |counts|, f);
        ServedIff(links, n, counts, dist, tables, k, mt, i);
      }
    }
  }
}
