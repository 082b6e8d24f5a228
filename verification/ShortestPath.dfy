/**
 The routing of the on-chip network: all cheapest paths between switches are found by relaxing a
 distance matrix in place until a pass changes nothing, and every link then gets the set of
 destinations for which it lies on a cheapest path.
 */
module ShortestPath {

  // The weight between switches that no link joins.
  const INFINITE_LATENCY := 10000

  type Matrix = seq<seq<int>>

  ghost predicate Square(m: Matrix, n: nat) {
    |m| == n && forall i :: 0 <= i < n ==> |m[i]| == n
  }

  // ----- Walks -----

  // A walk from i to j, as the switches it visits; it makes at least one hop.
  ghost predicate IsWalk(n: nat, w: seq<nat>, i: nat, j: nat) {
    |w| >= 2 && w[0] == i && w[|w| - 1] == j && forall k :: 0 <= k < |w| ==> w[k] < n
  }

  // The entries of m along a walk, added up.
  ghost function Along(m: Matrix, w: seq<nat>): int
    requires forall k :: 0 <= k < |w| ==> w[k] < |m|
    requires Square(m, |m|)
  {
    if |w| < 2 then 0 else m[w[0]][w[1]] + Along(m, w[1..])
  }

  lemma {:induction false} AlongJoin(m: Matrix, a: seq<nat>, b: seq<nat>)
    requires Square(m, |m|) && a != [] && b != [] && a[|a| - 1] == b[0]
    requires (forall k :: 0 <= k < |a| ==> a[k] < |m|) && forall k :: 0 <= k < |b| ==> b[k] < |m|
    ensures forall k :: 0 <= k < |a + b[1..]| ==> (a + b[1..])[k] < |m|
    ensures Along(m, a + b[1..]) == Along(m, a) + Along(m, b)
  {
    if |a| == 1 {
      assert a + b[1..] == b;
    } else {
      AlongJoin(m, a[1..], b);
      assert (a + b[1..])[1..] == a[1..] + b[1..];
      assert (a + b[1..])[1] == a[1];
    }
  }

  lemma JoinIsWalk(n: nat, a: seq<nat>, b: seq<nat>, i: nat, k: nat, j: nat)
    requires IsWalk(n, a, i, k) && IsWalk(n, b, k, j)
    ensures IsWalk(n, a + b[1..], i, j)
  {
  }

  // Some walk from i to j has weight d, latency l and s switches in between.
  ghost predicate Backed(weights: Matrix, latencies: Matrix, i: nat, j: nat, d: int, l: int, s: int)
    requires Square(weights, |weights|) && Square(latencies, |weights|)
  {
    exists w: seq<nat> :: IsWalk(|weights|, w, i, j) &&
      Along(weights, w) == d && Along(latencies, w) == l && |w| == s + 2
  }

  lemma BackedLink(weights: Matrix, latencies: Matrix, i: nat, j: nat)
    requires Square(weights, |weights|) && Square(latencies, |weights|) && i < |weights| && j < |weights|
    ensures Backed(weights, latencies, i, j, weights[i][j], latencies[i][j], 0)
  {
    var w: seq<nat> := [i, j];
    assert w[1..] == [j];
    assert Along(weights, w[1..]) == 0 && Along(latencies, w[1..]) == 0;
    assert IsWalk(|weights|, w, i, j);
  }

  lemma BackedJoin(weights: Matrix, latencies: Matrix, i: nat, k: nat, j: nat,
                   d1: int, l1: int, s1: int, d2: int, l2: int, s2: int)
    requires Square(weights, |weights|) && Square(latencies, |weights|)
    requires Backed(weights, latencies, i, k, d1, l1, s1) && Backed(weights, latencies, k, j, d2, l2, s2)
    ensures Backed(weights, latencies, i, j, d1 + d2, l1 + l2, s1 + s2 + 1)
  {
    var n := |weights|;
    var a: seq<nat> :| IsWalk(n, a, i, k) && Along(weights, a) == d1 && Along(latencies, a) == l1 && |a| == s1 + 2;
    var b: seq<nat> :| IsWalk(n, b, k, j) && Along(weights, b) == d2 && Along(latencies, b) == l2 && |b| == s2 + 2;
    JoinIsWalk(n, a, b, i, k, j);
    AlongJoin(weights, a, b);
    AlongJoin(latencies, a, b);
    assert |a + b[1..]| == s1 + s2 + 1 + 2;
  }

  // ----- The relaxation -----

  ghost function Snap(m: array2<int>): (s: Matrix)
    requires m.Length0 == m.Length1
    reads m
    ensures Square(s, m.Length0)
    ensures forall i, j :: 0 <= i < m.Length0 && 0 <= j < m.Length0 ==> s[i][j] == m[i, j]
  {
    seq(m.Length0, i requires 0 <= i < m.Length0 reads m => seq(m.Length0, j requires 0 <= j < m.Length0 reads m => m[i, j]))
  }

  ghost function RowTotal(r: seq<int>): int {
    if r == [] then 0 else r[0] + RowTotal(r[1..])
  }

  ghost function Total(m: Matrix): int {
    if m == [] then 0 else RowTotal(m[0]) + Total(m[1..])
  }

  ghost predicate Below(a: Matrix, b: Matrix) {
    |a| == |b| && (forall i :: 0 <= i < |a| ==> |a[i]| == |b[i]|) &&
    forall i, j :: 0 <= i < |a| && 0 <= j < |a[i]| ==> 0 <= a[i][j] <= b[i][j]
  }

  lemma {:induction false} RowTotalBelow(a: seq<int>, b: seq<int>)
    requires |a| == |b| && forall j :: 0 <= j < |a| ==> 0 <= a[j] <= b[j]
    ensures 0 <= RowTotal(a) <= RowTotal(b)
    ensures (exists j :: 0 <= j < |a| && a[j] < b[j]) ==> RowTotal(a) < RowTotal(b)
  {
    if a != [] {
      RowTotalBelow(a[1..], b[1..]);
      if j :| 0 <= j < |a| && a[j] < b[j] {
        assert j > 0 ==> a[1..][j - 1] < b[1..][j - 1];
      }
    }
  }

  lemma {:induction false} TotalBelow(a: Matrix, b: Matrix)
    requires Below(a, b)
    ensures 0 <= Total(a) <= Total(b)
    ensures (exists i, j :: 0 <= i < |a| && 0 <= j < |a[i]| && a[i][j] < b[i][j]) ==> Total(a) < Total(b)
  {
    if a != [] {
      assert forall j :: 0 <= j < |a[0]| ==> 0 <= a[0][j] <= b[0][j];
      RowTotalBelow(a[0], b[0]);
      assert Below(a[1..], b[1..]);
      TotalBelow(a[1..], b[1..]);
      if i, j :| 0 <= i < |a| && 0 <= j < |a[i]| && a[i][j] < b[i][j] {
        assert i > 0 ==> a[1..][i - 1] == a[i] && b[1..][i - 1] == b[i];
      }
    }
  }

  // The innermost loop and the update for one pair of switches.
  method Relax(dist: array2<int>, latencies: array2<int>, interSwitches: array2<int>, i: nat, j: nat, nodes: nat)
    returns (change: bool, ghost via: nat)
    requires dist != latencies && dist != interSwitches && latencies != interSwitches
    requires dist.Length0 == dist.Length1 == latencies.Length0 == latencies.Length1 == nodes
    requires interSwitches.Length0 == interSwitches.Length1 == nodes
    requires i < nodes && j < nodes
    requires forall a, b :: 0 <= a < nodes && 0 <= b < nodes ==> dist[a, b] >= 0
    modifies dist, latencies, interSwitches
    ensures forall a, b :: 0 <= a < nodes && 0 <= b < nodes && (a != i || b != j || !change) ==>
              dist[a, b] == old(dist[a, b]) && latencies[a, b] == old(latencies[a, b]) && interSwitches[a, b] == old(interSwitches[a, b])
    ensures !change ==> forall k :: 0 <= k < nodes ==> dist[i, j] <= dist[i, k] + dist[k, j]
    ensures change ==> via < nodes && 0 <= dist[i, j] < old(dist[i, j])
    ensures change ==> dist[i, j] == old(dist[i, via]) + old(dist[via, j])
    ensures change ==> latencies[i, j] == old(latencies[i, via]) + old(latencies[via, j])
    ensures change ==> interSwitches[i, j] == old(interSwitches[i, via]) + old(interSwitches[via, j]) + 1
  {
    var minimum := dist[i, j];
    var previousMinimum := minimum;
    var intermediateSwitch := -1;
    var k := 0;
    while k < nodes
      invariant 0 <= k <= nodes && previousMinimum == minimum && 0 <= minimum <= dist[i, j]
      invariant forall c :: 0 <= c < k ==> minimum <= dist[i, c] + dist[c, j]
      invariant forall a, b :: 0 <= a < nodes && 0 <= b < nodes ==> dist[a, b] == old(dist[a, b]) && latencies[a, b] == old(latencies[a, b])
      invariant forall a, b :: 0 <= a < nodes && 0 <= b < nodes && (a != i || b != j || minimum == dist[i, j]) ==> interSwitches[a, b] == old(interSwitches[a, b])
      invariant minimum < dist[i, j] ==> 0 <= intermediateSwitch < nodes && intermediateSwitch != i && intermediateSwitch != j
      invariant minimum < dist[i, j] ==> minimum == dist[i, intermediateSwitch] + dist[intermediateSwitch, j]
      invariant minimum < dist[i, j] ==> interSwitches[i, j] == old(interSwitches[i, intermediateSwitch]) + old(interSwitches[intermediateSwitch, j]) + 1
    {
      if dist[i, k] + dist[k, j] < minimum {
        minimum := dist[i, k] + dist[k, j];
      }
      if previousMinimum != minimum {
        intermediateSwitch := k;
        interSwitches[i, j] := interSwitches[i, k] + interSwitches[k, j] + 1;
      }
      previousMinimum := minimum;
      k := k + 1;
    }
    change := false;
    via := 0;
    if dist[i, j] != minimum {
      change := true;
      dist[i, j] := minimum;
      via := intermediateSwitch;
      latencies[i, j] := latencies[i, intermediateSwitch] + latencies[intermediateSwitch, j];
    }
  }

  // Every entry is backed by a walk and no entry is above the weight of the link itself.
  ghost predicate Sound(weights: Matrix, latencies: Matrix, dist: Matrix, lat: Matrix, inter: Matrix) {
    var n := |weights|;
    Square(weights, n) && Square(latencies, n) && Square(dist, n) && Square(lat, n) && Square(inter, n) &&
    forall i, j :: 0 <= i < n && 0 <= j < n ==>
      0 <= dist[i][j] <= weights[i][j] && Backed(weights, latencies, i, j, dist[i][j], lat[i][j], inter[i][j])
  }

  ghost predicate SameBut(a: Matrix, b: Matrix, i: nat, j: nat) {
    |a| == |b| && (forall x :: 0 <= x < |a| ==> |a[x]| == |b[x]|) &&
    forall x, y :: 0 <= x < |a| && 0 <= y < |a[x]| && (x != i || y != j) ==> a[x][y] == b[x][y]
  }

  lemma SoundStep(weights: Matrix, latencies: Matrix, dist: Matrix, lat: Matrix, inter: Matrix,
                  dist': Matrix, lat': Matrix, inter': Matrix, i: nat, j: nat, k: nat)
    requires Sound(weights, latencies, dist, lat, inter)
    requires i < |weights| && j < |weights| && k < |weights|
    requires SameBut(dist', dist, i, j) && SameBut(lat', lat, i, j) && SameBut(inter', inter, i, j)
    requires dist'[i][j] == dist[i][k] + dist[k][j] && dist'[i][j] < dist[i][j]
    requires lat'[i][j] == lat[i][k] + lat[k][j] && inter'[i][j] == inter[i][k] + inter[k][j] + 1
    ensures Sound(weights, latencies, dist', lat', inter')
  {
    hide Backed;
    BackedJoin(weights, latencies, i, k, j, dist[i][k], lat[i][k], inter[i][k], dist[k][j], lat[k][j], inter[k][j]);
  }

  lemma SoundInit(weights: Matrix, latencies: Matrix, inter: Matrix)
    requires Square(weights, |weights|) && Square(latencies, |weights|) && Square(inter, |weights|)
    requires forall i, j :: 0 <= i < |weights| && 0 <= j < |weights| ==> weights[i][j] >= 0 && inter[i][j] == 0
    ensures Sound(weights, latencies, weights, latencies, inter)
  {
    hide Backed;
    forall i, j | 0 <= i < |weights| && 0 <= j < |weights|
      ensures Backed(weights, latencies, i, j, weights[i][j], latencies[i][j], inter[i][j])
    {
      BackedLink(weights, latencies, i, j);
    }
  }

  // No entry can be improved by going through a third switch.
  ghost predicate Relaxed(dist: Matrix) {
    Square(dist, |dist|) &&
    forall i, j, k :: 0 <= i < |dist| && 0 <= j < |dist| && 0 <= k < |dist| ==> dist[i][j] <= dist[i][k] + dist[k][j]
  }

  // The same for the pairs before (i, j) in the order of the loops.
  ghost predicate RelaxedUpTo(dist: Matrix, i: nat, j: nat) {
    Square(dist, |dist|) &&
    forall a, b, k :: 0 <= a < |dist| && 0 <= b < |dist| && 0 <= k < |dist| && (a < i || (a == i && b < j)) ==>
      dist[a][b] <= dist[a][k] + dist[k][b]
  }

  // No walk is cheaper than the entry of a relaxed matrix.
  lemma {:induction false} RelaxedIsLeast(weights: Matrix, dist: Matrix, w: seq<nat>, i: nat, j: nat)
    requires Square(weights, |weights|) && Square(dist, |weights|) && Relaxed(dist)
    requires forall a, b :: 0 <= a < |weights| && 0 <= b < |weights| ==> dist[a][b] <= weights[a][b]
    requires IsWalk(|weights|, w, i, j)
    ensures dist[i][j] <= Along(weights, w)
    decreases |w|
  {
    if |w| == 2 {
      assert Along(weights, w[1..]) == 0;
    } else {
      var k := w[1];
      assert IsWalk(|weights|, w[1..], k, j);
      RelaxedIsLeast(weights, dist, w[1..], k, j);
      assert dist[i][j] <= dist[i][k] + dist[k][j];
    }
  }

  // dist, lat and inter hold, for every two switches, the weight of a cheapest walk and the
  // latency and number of switches in between of such a walk.
  ghost predicate Solved(weights: Matrix, latencies: Matrix, dist: Matrix, lat: Matrix, inter: Matrix) {
    Sound(weights, latencies, dist, lat, inter) &&
    forall i: nat, j: nat, w: seq<nat> :: IsWalk(|weights|, w, i, j) ==> dist[i][j] <= Along(weights, w)
  }

  lemma SolvedWhenRelaxed(weights: Matrix, latencies: Matrix, dist: Matrix, lat: Matrix, inter: Matrix)
    requires Sound(weights, latencies, dist, lat, inter) && Relaxed(dist)
    ensures Solved(weights, latencies, dist, lat, inter)
  {
    hide Backed;
    forall i: nat, j: nat, w: seq<nat> | IsWalk(|weights|, w, i, j)
      ensures dist[i][j] <= Along(weights, w)
    {
      RelaxedIsLeast(weights, dist, w, i, j);
    }
  }

  method ExtendShortestPath(dist: array2<int>, latencies: array2<int>, interSwitches: array2<int>)
    requires dist != latencies && dist != interSwitches && latencies != interSwitches
    requires dist.Length0 == dist.Length1 == latencies.Length0 == latencies.Length1
    requires interSwitches.Length0 == interSwitches.Length1 == dist.Length0
    requires forall i, j :: 0 <= i < dist.Length0 && 0 <= j < dist.Length0 ==> dist[i, j] >= 0 && interSwitches[i, j] == 0
    modifies dist, latencies, interSwitches
    ensures Solved(old(Snap(dist)), old(Snap(latencies)), Snap(dist), Snap(latencies), Snap(interSwitches))
  {
    hide Sound, Relaxed, RelaxedUpTo, Total, Solved, Below;
    var change := true;
    var nodes := dist.Length0;
    ghost var w, l := Snap(dist), Snap(latencies);
    SoundInit(w, l, Snap(interSwitches));
    while change
      invariant Sound(w, l, Snap(dist), Snap(latencies), Snap(interSwitches))
      invariant !change ==> Relaxed(Snap(dist))
      decreases Total(Snap(dist)), change
    {
      change := Pass(dist, latencies, interSwitches, w, l, nodes);
    }
    SolvedWhenRelaxed(w, l, Snap(dist), Snap(latencies), Snap(interSwitches));
  }

  // One pass over all pairs.
  method Pass(dist: array2<int>, latencies: array2<int>, interSwitches: array2<int>, ghost w: Matrix, ghost l: Matrix, nodes: nat)
    returns (change: bool)
    requires dist != latencies && dist != interSwitches && latencies != interSwitches
    requires dist.Length0 == dist.Length1 == latencies.Length0 == latencies.Length1 == nodes
    requires interSwitches.Length0 == interSwitches.Length1 == nodes
    requires Sound(w, l, Snap(dist), Snap(latencies), Snap(interSwitches)) && |w| == nodes
    modifies dist, latencies, interSwitches
    ensures Sound(w, l, Snap(dist), Snap(latencies), Snap(interSwitches))
    ensures change ==> 0 <= Total(Snap(dist)) < Total(old(Snap(dist)))
    ensures !change ==> Relaxed(Snap(dist)) && Snap(dist) == old(Snap(dist))
  {
    hide Sound, Relaxed, RelaxedUpTo, Total, Below;
    change := false;
    ghost var start := Snap(dist);
    BelowItself(w, l, start, Snap(latencies), Snap(interSwitches));
    var i := 0;
    while i < nodes
      invariant 0 <= i <= nodes
      invariant Sound(w, l, Snap(dist), Snap(latencies), Snap(interSwitches))
      invariant 0 <= Total(Snap(dist)) <= Total(start)
      invariant change ==> Total(Snap(dist)) < Total(start)
      invariant !change ==> Snap(dist) == start && RelaxedUpTo(start, i, 0)
    {
      var j := 0;
      while j < nodes
        invariant 0 <= j <= nodes
        invariant Sound(w, l, Snap(dist), Snap(latencies), Snap(interSwitches))
        invariant 0 <= Total(Snap(dist)) <= Total(start)
        invariant change ==> Total(Snap(dist)) < Total(start)
        invariant !change ==> Snap(dist) == start && RelaxedUpTo(start, i, j)
      {
        var c := RelaxPair(dist, latencies, interSwitches, w, l, i, j, nodes);
        if c {
          change := true;
        } else if !change {
          UpToNext(start, i, j);
        }
        j := j + 1;
      }
      if !change {
        UpToRow(start, i);
      }
      i := i + 1;
    }
    if !change {
      UpToAll(start);
    }
  }

  lemma {:induction false} BelowItself(w: Matrix, l: Matrix, dist: Matrix, lat: Matrix, inter: Matrix)
    requires Sound(w, l, dist, lat, inter)
    ensures 0 <= Total(dist) && RelaxedUpTo(dist, 0, 0)
  {
    TotalBelow(dist, dist);
  }

  lemma UpToNext(dist: Matrix, i: nat, j: nat)
    requires RelaxedUpTo(dist, i, j) && i < |dist| && j < |dist|
    requires forall k :: 0 <= k < |dist| ==> dist[i][j] <= dist[i][k] + dist[k][j]
    ensures RelaxedUpTo(dist, i, j + 1)
  {
  }

  lemma UpToRow(dist: Matrix, i: nat)
    requires RelaxedUpTo(dist, i, |dist|)
    ensures RelaxedUpTo(dist, i + 1, 0)
  {
  }

  lemma UpToAll(dist: Matrix)
    requires RelaxedUpTo(dist, |dist|, 0)
    ensures Relaxed(dist)
  {
  }

  lemma SquareOf(w: Matrix, l: Matrix, dist: Matrix, lat: Matrix, inter: Matrix)
    requires Sound(w, l, dist, lat, inter)
    ensures Square(dist, |w|) && forall i, j :: 0 <= i < |w| && 0 <= j < |w| ==> 0 <= dist[i][j]
  {
  }

  lemma SameEntries(a: Matrix, b: Matrix, n: nat)
    requires Square(a, n) && Square(b, n)
    requires forall i, j :: 0 <= i < n && 0 <= j < n ==> a[i][j] == b[i][j]
    ensures a == b
  {
    forall i | 0 <= i < n
      ensures a[i] == b[i]
    {
    }
  }

  // Relax keeps the matrices sound and lowers the total whenever it changes anything.
  method RelaxPair(dist: array2<int>, latencies: array2<int>, interSwitches: array2<int>,
                   ghost w: Matrix, ghost l: Matrix, i: nat, j: nat, nodes: nat)
    returns (change: bool)
    requires dist != latencies && dist != interSwitches && latencies != interSwitches
    requires dist.Length0 == dist.Length1 == latencies.Length0 == latencies.Length1 == nodes
    requires interSwitches.Length0 == interSwitches.Length1 == nodes
    requires i < nodes && j < nodes && |w| == nodes
    requires Sound(w, l, Snap(dist), Snap(latencies), Snap(interSwitches))
    modifies dist, latencies, interSwitches
    ensures Sound(w, l, Snap(dist), Snap(latencies), Snap(interSwitches))
    ensures change ==> 0 <= Total(Snap(dist)) < Total(old(Snap(dist)))
    ensures !change ==> Snap(dist) == old(Snap(dist))
    ensures !change ==> forall k :: 0 <= k < nodes ==> old(Snap(dist))[i][j] <= old(Snap(dist))[i][k] + old(Snap(dist))[k][j]
  {
    hide Sound, Total, Snap;
    ghost var d0, l0, s0 := Snap(dist), Snap(latencies), Snap(interSwitches);
    SquareOf(w, l, d0, l0, s0);
    ghost var via;
    assert forall a, b :: 0 <= a < nodes && 0 <= b < nodes ==> dist[a, b] == d0[a][b];
    change, via := Relax(dist, latencies, interSwitches, i, j, nodes);
    ghost var d, l', s := Snap(dist), Snap(latencies), Snap(interSwitches);
    if change {
      SoundStep(w, l, d0, l0, s0, d, l', s, i, j, via);
      assert d[i][j] < d0[i][j];
      TotalBelow(d, d0);
    } else {
      SameEntries(d, d0, nodes);
      SameEntries(l', l0, nodes);
      SameEntries(s, s0, nodes);
    }
  }
}
