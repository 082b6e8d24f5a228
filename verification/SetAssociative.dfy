/**
 Whole runs of a set-associative cache, stated without reference to any algorithm, and the
 theorem that the least number of misses over all runs is the sum of the per-set optima.
 */
module SetAssociative {
  import opened Arithmetic
  import opened Replacement

  // x & m for a non-negative mask; x is read in two's complement.
  function BitAnd(x: int, m: nat): (r: nat)
    ensures r <= m
    decreases m
  {
    if m == 0 then 0 else 2 * BitAnd(x / 2, m / 2) + (x % 2) * (m % 2)
  }

  // The set a block address is mapped to: addr & (numSets - 1).
  function SetOf(numSets: nat, b: Block): (s: nat)
    requires numSets >= 1
    ensures s < numSets
  {
    BitAnd(b, numSets - 1)
  }

  // For a power of two the mask is the usual modulo indexing.
  lemma {:induction false} SetOfPowerOfTwo(k: nat, b: Block)
    ensures SetOf(Pow2(k), b) == b % Pow2(k)
  {
    if k > 0 {
      var m := Pow2(k) - 1;
      assert m / 2 == Pow2(k - 1) - 1 && m % 2 == 1;
      SetOfPowerOfTwo(k - 1, b / 2);
      ModSplit(b, Pow2(k - 1));
    }
  }

  lemma ModSplit(b: int, p: nat)
    requires p >= 1
    ensures b % (2 * p) == 2 * ((b / 2) % p) + b % 2
  {
    var q, r := (b / 2) / p, (b / 2) % p;
    assert b / 2 == q * p + r;
    assert b == q * (2 * p) + (2 * r + b % 2);
    DivModUnique(b, 2 * p, q, 2 * r + b % 2);
  }

  function InSet(n: nat, c: set<Block>, s: nat): set<Block>
    requires n >= 1
  {
    set b | b in c && SetOf(n, b) == s
  }

  // The references of one set, in trace order.
  function RefsOf(n: nat, trace: seq<Block>, s: nat): (refs: seq<Block>)
    requires n >= 1
    ensures forall b :: b in refs ==> SetOf(n, b) == s
  {
    if trace == [] then []
    else if SetOf(n, trace[0]) == s then [trace[0]] + RefsOf(n, trace[1..], s)
    else RefsOf(n, trace[1..], s)
  }

  lemma {:induction false} RefsOfWithin(n: nat, trace: seq<Block>, s: nat)
    requires n >= 1
    ensures |RefsOf(n, trace, s)| <= |trace|
    ensures forall b :: b in RefsOf(n, trace, s) ==> b in trace
  {
    if trace != [] {
      RefsOfWithin(n, trace[1..], s);
    }
  }

  lemma {:induction false} RefsOfAppend(n: nat, trace: seq<Block>, b: Block, s: nat)
    requires n >= 1
    ensures RefsOf(n, trace + [b], s) == RefsOf(n, trace, s) + if SetOf(n, b) == s then [b] else []
  {
    if trace == [] {
      assert (trace + [b])[1..] == [];
    } else {
      assert (trace + [b])[1..] == trace[1..] + [b];
      RefsOfAppend(n, trace[1..], b, s);
    }
  }

  ghost predicate Fits(assoc: nat, n: nat, c: set<Block>)
    requires n >= 1
  {
    forall s :: 0 <= s < n ==> |InSet(n, c, s)| <= assoc
  }

  ghost predicate CacheStep(assoc: nat, n: nat, r: Block, c: set<Block>, c': set<Block>)
    requires n >= 1
  {
    r in c' && c' <= c + {r} && Fits(assoc, n, c')
  }

  // states[i] is what the cache holds just before reference i; any policy produces such a run.
  ghost predicate IsRun(assoc: nat, n: nat, trace: seq<Block>, states: seq<set<Block>>)
    requires n >= 1
  {
    |states| == |trace| + 1 &&
    forall i :: 0 <= i < |trace| ==> CacheStep(assoc, n, trace[i], states[i], states[i + 1])
  }

  function Misses(trace: seq<Block>, states: seq<set<Block>>): nat
    requires |states| == |trace| + 1
  {
    if trace == [] then 0
    else Cost(trace[0], states[0]) + Misses(trace[1..], states[1..])
  }

  // m is the least number of misses any run starting with an empty cache can have.
  ghost predicate IsOptimum(assoc: nat, n: nat, trace: seq<Block>, m: nat)
    requires n >= 1
  {
    (exists states :: IsRun(assoc, n, trace, states) && states[0] == {} && Misses(trace, states) == m) &&
    (forall states :: IsRun(assoc, n, trace, states) && states[0] == {} ==> m <= Misses(trace, states))
  }

  // The same for the references of one set, in terms of Serves.
  ghost predicate IsSetOptimum(k: nat, refs: seq<Block>, m: nat) {
    Serves(k, refs, {}, m) && forall m' :: Serves(k, refs, {}, m') ==> m <= m'
  }

  function Sum(ms: seq<nat>): nat {
    if ms == [] then 0 else ms[0] + Sum(ms[1..])
  }

  lemma {:induction false} SumUpdate(ms: seq<nat>, s: nat, v: nat)
    requires s < |ms|
    ensures Sum(ms[s := v]) == Sum(ms) - ms[s] + v
  {
    if s == 0 {
      assert ms[0 := v][1..] == ms[1..];
    } else {
      assert ms[s := v][1..] == ms[1..][s - 1 := v];
      SumUpdate(ms[1..], s - 1, v);
    }
  }

  lemma {:induction false} SumAppend(ms: seq<nat>, v: nat)
    ensures Sum(ms + [v]) == Sum(ms) + v
  {
    if ms == [] {
      assert (ms + [v])[1..] == [];
    } else {
      assert (ms + [v])[1..] == ms[1..] + [v];
      SumAppend(ms[1..], v);
    }
  }

  function SetSizes(n: nat, trace: seq<Block>): (ls: seq<nat>)
    requires n >= 1
    ensures |ls| == n
  {
    seq(n, s requires 0 <= s < n => |RefsOf(n, trace, s)|)
  }

  // Sorting a trace into sets loses no reference.
  lemma {:induction false} SetSizesAddUp(n: nat, trace: seq<Block>)
    requires n >= 1
    ensures Sum(SetSizes(n, trace)) == |trace|
  {
    if trace == [] {
      SumZero(SetSizes(n, trace));
    } else {
      var s0 := SetOf(n, trace[0]);
      var ls := SetSizes(n, trace[1..]);
      SetSizesAddUp(n, trace[1..]);
      assert SetSizes(n, trace) == ls[s0 := ls[s0] + 1];
      SumUpdate(ls, s0, ls[s0] + 1);
    }
  }

  lemma {:induction false} SumMonotone(ms: seq<nat>, ns: seq<nat>)
    requires |ms| == |ns| && forall s :: 0 <= s < |ms| ==> ms[s] <= ns[s]
    ensures Sum(ms) <= Sum(ns)
  {
    if ms != [] {
      SumMonotone(ms[1..], ns[1..]);
    }
  }

  lemma {:induction false} SumZero(ms: seq<nat>)
    requires forall s :: 0 <= s < |ms| ==> ms[s] == 0
    ensures Sum(ms) == 0
  {
    if ms != [] {
      SumZero(ms[1..]);
    }
  }

  ghost predicate AllServe(assoc: nat, n: nat, trace: seq<Block>, c: set<Block>, ms: seq<nat>)
    requires n >= 1
  {
    |ms| == n &&
    forall s :: 0 <= s < n ==> Serves(assoc, RefsOf(n, trace, s), InSet(n, c, s), ms[s])
  }

  // Every run splits into per-set services whose misses add up to those of the run.
  lemma {:induction false} RunSplits(assoc: nat, n: nat, trace: seq<Block>, states: seq<set<Block>>)
    returns (ms: seq<nat>)
    requires n >= 1 && IsRun(assoc, n, trace, states)
    ensures AllServe(assoc, n, trace, states[0], ms)
    ensures Sum(ms) == Misses(trace, states)
    decreases |trace|
  {
    if trace == [] {
      ms := seq(n, _ => 0);
      SumZero(ms);
    } else {
      hide Serves, Sum, RefsOf, InSet, SetOf, CacheStep, IsRun, Cost, Misses;
      RunTail(assoc, n, trace, states);
      var ms' := RunSplits(assoc, n, trace[1..], states[1..]);
      ms := Charged(n, trace[0], states[0], ms');
      AllServeStep(assoc, n, trace, states[0], states[1], ms');
    }
  }

  // The misses of every set when reference r comes first.
  function Charged(n: nat, r: Block, c: set<Block>, ms: seq<nat>): seq<nat>
    requires |ms| == n >= 1
  {
    var s := SetOf(n, r);
    ms[s := ms[s] + Cost(r, c)]
  }

  lemma AllServeStep(assoc: nat, n: nat, trace: seq<Block>, c: set<Block>, c': set<Block>, ms: seq<nat>)
    requires n >= 1 && trace != [] && CacheStep(assoc, n, trace[0], c, c') && AllServe(assoc, n, trace[1..], c', ms)
    ensures var all := Charged(n, trace[0], c, ms);
            AllServe(assoc, n, trace, c, all) && Sum(all) == Sum(ms) + Cost(trace[0], c)
  {
    hide Serves, Sum, RefsOf, InSet, SetOf, CacheStep, Cost;
    var r, s0 := trace[0], SetOf(n, trace[0]);
    SumUpdate(ms, s0, ms[s0] + Cost(r, c));
    forall s | 0 <= s < n
      ensures Serves(assoc, RefsOf(n, trace, s), InSet(n, c, s), Charged(n, r, c, ms)[s])
    {
      SplitStep(assoc, n, trace, c, c', s, ms[s]);
    }
  }

  lemma {:induction false} RunTail(assoc: nat, n: nat, trace: seq<Block>, states: seq<set<Block>>)
    requires n >= 1 && IsRun(assoc, n, trace, states) && trace != []
    ensures |states| == |trace| + 1
    ensures CacheStep(assoc, n, trace[0], states[0], states[1]) && IsRun(assoc, n, trace[1..], states[1..])
    ensures Misses(trace, states) == Cost(trace[0], states[0]) + Misses(trace[1..], states[1..])
  {
    hide CacheStep, Cost;
  }

  lemma {:induction false} SplitStep(assoc: nat, n: nat, trace: seq<Block>, c: set<Block>, c': set<Block>, s: nat, m: nat)
    requires n >= 1 && trace != [] && s < n && CacheStep(assoc, n, trace[0], c, c')
    requires Serves(assoc, RefsOf(n, trace[1..], s), InSet(n, c', s), m)
    ensures Serves(assoc, RefsOf(n, trace, s), InSet(n, c, s),
                   m + if SetOf(n, trace[0]) == s then Cost(trace[0], c) else 0)
  {
    var refs := RefsOf(n, trace, s);
    var a, b := InSet(n, c, s), InSet(n, c', s);
    if SetOf(n, trace[0]) == s {
      assert refs[1..] == RefsOf(n, trace[1..], s);
      assert Step(assoc, refs[0], a, b);
      ServesVia(assoc, refs, a, b, m + Cost(trace[0], c));
    } else {
      ServesMonotone(assoc, refs, b, a, m, m);
    }
  }

  // One reference of a combined service: only the set of the reference moves.
  lemma CombineService(assoc: nat, n: nat, trace: seq<Block>, c: set<Block>, ms: seq<nat>)
    returns (c': set<Block>, ms': seq<nat>)
    requires n >= 1 && trace != [] && Fits(assoc, n, c) && AllServe(assoc, n, trace, c, ms)
    ensures CacheStep(assoc, n, trace[0], c, c')
    ensures AllServe(assoc, n, trace[1..], c', ms')
    ensures Sum(ms') == Sum(ms) - Cost(trace[0], c)
  {
    hide Serves, Fits, CacheStep, Sum, RefsOf, InSet, SetOf, Step, Cost;
    var s0 := SetOf(n, trace[0]);
    var b := HeadService(assoc, n, trace, c, ms[s0]);
    c' := c - InSet(n, c, s0) + b;
    CombineStep(assoc, n, trace[0], c, b);
    ms' := ms[s0 := ms[s0] - Cost(trace[0], c)];
    SumUpdate(ms, s0, ms[s0] - Cost(trace[0], c));
    forall s | 0 <= s < n
      ensures Serves(assoc, RefsOf(n, trace[1..], s), InSet(n, c', s), ms'[s])
    {
      assert Serves(assoc, RefsOf(n, trace, s), InSet(n, c, s), ms[s]);
      OtherSet(n, trace, s);
    }
  }

  lemma {:induction false} OtherSet(n: nat, trace: seq<Block>, s: nat)
    requires n >= 1 && trace != [] && s < n
    ensures s != SetOf(n, trace[0]) ==> RefsOf(n, trace[1..], s) == RefsOf(n, trace, s)
  {
  }

  lemma HeadService(assoc: nat, n: nat, trace: seq<Block>, c: set<Block>, m: nat)
    returns (b: set<Block>)
    requires n >= 1 && trace != []
    requires Serves(assoc, RefsOf(n, trace, SetOf(n, trace[0])), InSet(n, c, SetOf(n, trace[0])), m)
    ensures Step(assoc, trace[0], InSet(n, c, SetOf(n, trace[0])), b)
    ensures m >= Cost(trace[0], c)
    ensures Serves(assoc, RefsOf(n, trace[1..], SetOf(n, trace[0])), b, m - Cost(trace[0], c))
  {
    var s0 := SetOf(n, trace[0]);
    var refs := RefsOf(n, trace, s0);
    b := ServesStep(assoc, refs, InSet(n, c, s0), m);
    assert refs[1..] == RefsOf(n, trace[1..], s0);
  }

  // Per-set services combine into one run with at most the sum of their misses.
  lemma {:induction false} RunFromSets(assoc: nat, n: nat, trace: seq<Block>, c: set<Block>, ms: seq<nat>)
    returns (states: seq<set<Block>>)
    requires n >= 1 && Fits(assoc, n, c) && AllServe(assoc, n, trace, c, ms)
    ensures IsRun(assoc, n, trace, states) && states[0] == c
    ensures Misses(trace, states) <= Sum(ms)
    decreases |trace|
  {
    if trace == [] {
      states := [c];
    } else {
      var c', ms' := CombineService(assoc, n, trace, c, ms);
      var states' := RunFromSets(assoc, n, trace[1..], c', ms');
      states := [c] + states';
      assert states[1..] == states';
    }
  }

  lemma CombineStep(assoc: nat, n: nat, r: Block, c: set<Block>, b: set<Block>)
    requires n >= 1 && Fits(assoc, n, c) && Step(assoc, r, InSet(n, c, SetOf(n, r)), b)
    ensures CacheStep(assoc, n, r, c, c - InSet(n, c, SetOf(n, r)) + b)
    ensures InSet(n, c - InSet(n, c, SetOf(n, r)) + b, SetOf(n, r)) == b
    ensures forall s :: s != SetOf(n, r) ==> InSet(n, c - InSet(n, c, SetOf(n, r)) + b, s) == InSet(n, c, s)
  {
    var s0 := SetOf(n, r);
    var c' := c - InSet(n, c, s0) + b;
    assert InSet(n, c', s0) == b;
    forall s | s != s0
      ensures InSet(n, c', s) == InSet(n, c, s)
    {
    }
  }

  // The optimum of the whole cache is the sum of the optima of its sets.
  lemma {:induction false} SetsCompose(assoc: nat, n: nat, trace: seq<Block>, ms: seq<nat>)
    requires n >= 1 && |ms| == n
    requires forall s :: 0 <= s < n ==> IsSetOptimum(assoc, RefsOf(n, trace, s), ms[s])
    ensures IsOptimum(assoc, n, trace, Sum(ms))
  {
    forall s: nat
      ensures InSet(n, {}, s) == {}
    {
    }
    assert AllServe(assoc, n, trace, {}, ms);
    var best := RunFromSets(assoc, n, trace, {}, ms);
    forall states | IsRun(assoc, n, trace, states) && states[0] == {}
      ensures Sum(ms) <= Misses(trace, states)
    {
      var ns := RunSplits(assoc, n, trace, states);
      forall s | 0 <= s < n
        ensures ms[s] <= ns[s]
      {
        assert IsSetOptimum(assoc, RefsOf(n, trace, s), ms[s]);
        assert Serves(assoc, RefsOf(n, trace, s), {}, ns[s]);
      }
      SumMonotone(ms, ns);
    }
    assert Misses(trace, best) == Sum(ms);
  }
}
