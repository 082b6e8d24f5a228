/**
 The trace-driven simulator of a set-associative cache with optimal replacement.

 The constructor sorts the trace into sets and annotates every reference with the time of the
 next reference to the same block; `Tick` replays each set with a heap of cached references
 ordered by that time.  The main result is on `Tick`: the misses it counts are the least
 number of misses of any replacement policy on the trace.
 */
module OptCpu {
  import opened Arithmetic
  import opened Replacement
  import opened SetAssociative
  import opened OptHeap
  import LookupTable

  // m' differs from m only at addresses that occur in refs.
  ghost predicate Touches(refs: seq<RefInfo>, m: map<int, int>, m': map<int, int>) {
    m.Keys == m'.Keys && forall a :: a in m && a !in Addrs(refs) ==> m'[a] == m[a]
  }

  lemma TouchesTransitive(refs: seq<RefInfo>, m: map<int, int>, m': map<int, int>, m'': map<int, int>)
    requires Touches(refs, m, m') && Touches(refs, m', m'')
    ensures Touches(refs, m, m'')
  {
  }

  lemma TouchesItself(refs: seq<RefInfo>, m: map<int, int>)
    ensures Touches(refs, m, m)
  {
  }

  lemma LinkedIds(refs: seq<RefInfo>, m: map<int, int>, heap: seq<int>, n: nat)
    requires Linked(refs, m, heap, n)
    ensures Ids(refs, heap, n)
  {
  }

  lemma SwapLinked(refs: seq<RefInfo>, m: map<int, int>, heap: seq<int>, a: nat, b: nat, h': seq<int>, m': map<int, int>)
    requires Linked(refs, m, heap, |heap|) && a < |heap| && b < |heap| && a != b
    requires h' == heap[a := heap[b]][b := heap[a]]
    requires m' == m[refs[h'[a]].addr := a][refs[h'[b]].addr := b]
    ensures Linked(refs, m', h', |h'|) && multiset(h') == multiset(heap)
    ensures Touches(refs, m, m')
  {
    assert refs[heap[a]].addr in Addrs(refs) && refs[heap[b]].addr in Addrs(refs);
    assert m'.Keys == m.Keys;
  }

  // Filling an empty place with a block that is not cached.
  lemma FillLinked(refs: seq<RefInfo>, m: map<int, int>, heap: seq<int>, n: nat, i: nat)
    requires Linked(refs, m, heap, n) && n < |heap| && i < |refs| && m[refs[i].addr] == -1
    ensures Linked(refs, m[refs[i].addr := n], heap[n := i], n + 1)
    ensures Cached(refs, heap[n := i], n + 1) == Cached(refs, heap, n) + {refs[i].addr}
    ensures Touches(refs, m, m[refs[i].addr := n])
  {
    var h' := heap[n := i];
    assert refs[i].addr in Addrs(refs);
    assert h'[n] == i;
    assert forall j :: 0 <= j < n ==> h'[j] == heap[j];
  }

  // Moving a cached block to its newest reference.
  lemma RenewLinked(refs: seq<RefInfo>, m: map<int, int>, heap: seq<int>, n: nat, p: nat, i: nat)
    requires Linked(refs, m, heap, n) && i < |refs| && m[refs[i].addr] == p
    ensures Linked(refs, m, heap[p := i], n)
    ensures Cached(refs, heap[p := i], n) == Cached(refs, heap, n)
  {
    var h' := heap[p := i];
    assert forall j :: 0 <= j < n ==> refs[h'[j]].addr == refs[heap[j]].addr;
  }

  // Replacing the root block by a block that is not cached.
  lemma ReplaceLinked(refs: seq<RefInfo>, m: map<int, int>, heap: seq<int>, i: nat)
    requires Linked(refs, m, heap, |heap|) && |heap| > 0 && i < |refs| && m[refs[i].addr] == -1
    ensures Linked(refs, m[refs[heap[0]].addr := -1][refs[i].addr := 0], heap[0 := i], |heap|)
    ensures Cached(refs, heap[0 := i], |heap|) == Cached(refs, heap, |heap|) - {refs[heap[0]].addr} + {refs[i].addr}
    ensures Touches(refs, m, m[refs[heap[0]].addr := -1][refs[i].addr := 0])
  {
    var h', m' := heap[0 := i], m[refs[heap[0]].addr := -1][refs[i].addr := 0];
    assert refs[i].addr in Addrs(refs) && refs[heap[0]].addr in Addrs(refs);
    assert m'.Keys == m.Keys;
    assert h'[0] == i;
    assert forall j :: 0 < j < |heap| ==> h'[j] == heap[j];
    assert forall j :: 0 < j < |heap| ==> refs[heap[j]].addr != refs[heap[0]].addr;
  }

  // The service still owed to refs[i..] is the service owed to all of refs less `done` misses.
  ghost predicate OnCourse(k: nat, refs: seq<RefInfo>, i: nat, c: set<Block>, done: nat)
    requires i <= |refs|
  {
    forall m :: Serves(k, Addrs(refs), {}, m) <==> Serves(k, Addrs(refs)[i..], c, m - done)
  }

  lemma OnCourseHit(k: nat, refs: seq<RefInfo>, i: nat, c: set<Block>, done: nat)
    requires i < |refs| && refs[i].addr in c && |c| <= k && OnCourse(k, refs, i, c, done)
    ensures OnCourse(k, refs, i + 1, c, done)
  {
    hide Serves, FirstUse;
    var rest := Addrs(refs)[i..];
    assert rest[1..] == Addrs(refs)[i + 1..];
    forall m
      ensures Serves(k, Addrs(refs), {}, m) <==> Serves(k, rest[1..], c, m - done)
    {
      ServesHit(k, rest, c, m - done);
    }
  }

  lemma OnCourseFill(k: nat, refs: seq<RefInfo>, i: nat, c: set<Block>, done: nat)
    requires i < |refs| && refs[i].addr !in c && |c| < k && OnCourse(k, refs, i, c, done)
    ensures OnCourse(k, refs, i + 1, c + {refs[i].addr}, done + 1)
  {
    hide Serves, FirstUse;
    var rest := Addrs(refs)[i..];
    assert rest[1..] == Addrs(refs)[i + 1..];
    forall m
      ensures Serves(k, Addrs(refs), {}, m) <==> Serves(k, rest[1..], c + {refs[i].addr}, m - (done + 1))
    {
      ServesFill(k, rest, c, m - done);
    }
  }

  lemma {:induction false} OnCourseEvict(k: nat, refs: seq<RefInfo>, i: nat, c: set<Block>, f: Block, done: nat)
    requires i < |refs| && refs[i].addr !in c && |c| == k && f in c && OnCourse(k, refs, i, c, done)
    requires forall y :: y in c ==> FirstUse(Addrs(refs)[i + 1..], y) <= FirstUse(Addrs(refs)[i + 1..], f)
    ensures OnCourse(k, refs, i + 1, c - {f} + {refs[i].addr}, done + 1)
  {
    hide Serves, FirstUse;
    var rest := Addrs(refs)[i..];
    assert rest[1..] == Addrs(refs)[i + 1..];
    forall m
      ensures Serves(k, Addrs(refs), {}, m) <==> Serves(k, rest[1..], c - {f} + {refs[i].addr}, m - (done + 1))
    {
      ServesEvictFurthest(k, rest, c, f, m - done);
    }
  }

  lemma OnCourseEnd(k: nat, refs: seq<RefInfo>, c: set<Block>, done: nat)
    requires OnCourse(k, refs, |refs|, c, done)
    ensures IsSetOptimum(k, Addrs(refs), done)
  {
    assert Addrs(refs)[|refs|..] == [];
    assert Serves(k, [], c, done - done);
  }

  lemma EmptySetOptimum(k: nat, refs: seq<RefInfo>)
    requires refs == []
    ensures IsSetOptimum(k, Addrs(refs), 0)
  {
    assert Addrs(refs) == [];
    assert Serves(k, [], {}, 0);
  }

  lemma OnCourseStart(k: nat, refs: seq<RefInfo>)
    ensures OnCourse(k, refs, 0, {}, 0)
  {
    assert Addrs(refs)[0..] == Addrs(refs);
  }

  // Everything the simulation of one set maintains: n of k places are taken, i references
  // have been replayed with `done` misses, and no policy could be doing better.
  ghost predicate Sim(k: nat, refs: seq<RefInfo>, m: map<int, int>, heap: seq<int>, n: nat, i: nat, done: nat) {
    |heap| == k && n <= k && i <= |refs| && Annotated(refs) &&
    Linked(refs, m, heap, n) && Current(refs, heap, n, i) &&
    OnCourse(k, refs, i, Cached(refs, heap, n), done)
  }

  lemma SimFacts(k: nat, refs: seq<RefInfo>, m: map<int, int>, heap: seq<int>, n: nat, i: nat, done: nat)
    requires Sim(k, refs, m, heap, n, i, done)
    ensures |heap| == k && n <= k && i <= |refs|
    ensures Annotated(refs) && Ids(refs, heap, n) && Linked(refs, m, heap, n) && Current(refs, heap, n, i)
    ensures forall j :: 0 <= j < |refs| ==> refs[j].addr in m && -1 <= m[refs[j].addr] < n
    ensures OnCourse(k, refs, i, Cached(refs, heap, n), done)
  {
  }

  lemma SimFill(k: nat, refs: seq<RefInfo>, m: map<int, int>, heap: seq<int>, n: nat, i: nat, done: nat)
    requires Sim(k, refs, m, heap, n, i, done) && n < k && i < |refs| && m[refs[i].addr] == -1
    ensures Sim(k, refs, m[refs[i].addr := n], heap[n := i], n + 1, i + 1, done + 1)
    ensures Touches(refs, m, m[refs[i].addr := n])
  {
    CachedSize(refs, m, heap, n);
    CachedIffTable(refs, m, heap, n, i);
    FillLinked(refs, m, heap, n, i);
    OnCourseFill(k, refs, i, Cached(refs, heap, n), done);
    CurrentAdvances(refs, heap, n, n, n + 1, i);
  }

  lemma SimRenew(k: nat, refs: seq<RefInfo>, m: map<int, int>, heap: seq<int>, n: nat, i: nat, done: nat)
    requires Sim(k, refs, m, heap, n, i, done) && i < |refs| && m[refs[i].addr] != -1
    ensures Sim(k, refs, m, heap[m[refs[i].addr] := i], n, i + 1, done)
  {
    CachedSize(refs, m, heap, n);
    CachedIffTable(refs, m, heap, n, i);
    RenewLinked(refs, m, heap, n, m[refs[i].addr], i);
    OnCourseHit(k, refs, i, Cached(refs, heap, n), done);
    CurrentAdvances(refs, heap, n, m[refs[i].addr], n, i);
  }

  lemma SimReplace(k: nat, refs: seq<RefInfo>, m: map<int, int>, heap: seq<int>, i: nat, done: nat)
    requires Sim(k, refs, m, heap, k, i, done) && k > 0 && i < |refs| && m[refs[i].addr] == -1
    requires IsHeap(refs, heap, 0)
    ensures Sim(k, refs, m[refs[heap[0]].addr := -1][refs[i].addr := 0], heap[0 := i], k, i + 1, done + 1)
    ensures Touches(refs, m, m[refs[heap[0]].addr := -1][refs[i].addr := 0])
  {
    CachedSize(refs, m, heap, k);
    CachedIffTable(refs, m, heap, k, i);
    RootIsFurthest(refs, m, heap, i);
    assert refs[heap[0]].addr in Cached(refs, heap, k);
    ReplaceLinked(refs, m, heap, i);
    OnCourseEvict(k, refs, i, Cached(refs, heap, k), refs[heap[0]].addr, done);
    CurrentAdvances(refs, heap, k, 0, k, i);
  }

  lemma SimPermuted(k: nat, refs: seq<RefInfo>, m: map<int, int>, heap: seq<int>, m': map<int, int>, heap': seq<int>, i: nat, done: nat)
    requires Sim(k, refs, m, heap, k, i, done)
    requires multiset(heap) == multiset(heap') && Linked(refs, m', heap', |heap'|)
    ensures Sim(k, refs, m', heap', k, i, done)
  {
    SameContents(refs, heap, heap');
  }

  // Block addresses of a trace of physical addresses.
  function Blocks(paddrs: seq<nat>, blockSize: nat): (b: seq<Block>)
    requires blockSize >= 1
    ensures |b| == |paddrs|
  {
    seq(|paddrs|, i requires 0 <= i < |paddrs| => paddrs[i] / blockSize)
  }

  ghost predicate AnnotatedIn(refs: seq<RefInfo>, m: map<int, int>, n: nat, s: nat)
    requires n >= 1
  {
    Annotated(refs) &&
    forall i :: 0 <= i < |refs| ==> refs[i].addr in m && SetOf(n, refs[i].addr) == s
  }

  // The references from i on have their next use and are in the table.
  ghost predicate AnnotatedFrom(refs: seq<RefInfo>, addrs: seq<int>, m: map<int, int>, i: nat) {
    |refs| == |addrs| < INFINITE_REF &&
    forall j :: i <= j < |addrs| ==> addrs[j] in m && refs[j].nextRefTime == NextAfter(addrs, j + 1, addrs[j])
  }

  lemma NoneAnnotated(refs: seq<RefInfo>, addrs: seq<int>, m: map<int, int>)
    requires addrs == Addrs(refs) && |addrs| < INFINITE_REF
    ensures AnnotatedFrom(refs, addrs, m, |addrs|)
  {
  }

  lemma InTable(refs: seq<RefInfo>, addrs: seq<int>, m: map<int, int>, i: nat)
    requires AnnotatedFrom(refs, addrs, m, i)
    ensures forall j :: i <= j < |addrs| ==> addrs[j] in m
  {
  }

  lemma OneMore(refs: seq<RefInfo>, addrs: seq<int>, m: map<int, int>, m': map<int, int>, i: nat, next: int)
    requires i < |addrs| < INFINITE_REF && AnnotatedFrom(refs, addrs, m, i + 1)
    requires m.Keys <= m'.Keys && addrs[i] in m' && next == NextAfter(addrs, i + 1, addrs[i])
    ensures AnnotatedFrom(refs[i := refs[i].(nextRefTime := next)], addrs, m', i)
  {
    hide NextAfter;
    forall j | i < j < |addrs|
      ensures addrs[j] in m'
    {
      assert addrs[j] in m.Keys;
    }
  }

  lemma AllAnnotated(refs: seq<RefInfo>, addrs: seq<int>, m: map<int, int>, n: nat, s: nat)
    requires n >= 1 && addrs == Addrs(refs) && AnnotatedFrom(refs, addrs, m, 0)
    requires forall b :: b in addrs ==> SetOf(n, b) == s
    ensures AnnotatedIn(refs, m, n, s)
  {
    hide NextAfter, SetOf;
    forall j | 0 <= j < |refs|
      ensures NextRefOk(refs, j) && refs[j].addr in m && SetOf(n, refs[j].addr) == s
    {
      assert refs[j].addr == addrs[j] && addrs[j] in addrs;
    }
  }

  // No block of refs has a place yet.
  ghost predicate Untouched(refs: seq<RefInfo>, m: map<int, int>) {
    forall i :: 0 <= i < |refs| ==> refs[i].addr in m && m[refs[i].addr] == -1
  }

  // Replaying one set leaves every other set alone.
  lemma StaysUntouched(n: nat, refs: seq<RefInfo>, s: nat, other: seq<RefInfo>, k: nat, m: map<int, int>, m': map<int, int>)
    requires n >= 1 && s != k && AnnotatedIn(refs, m, n, s) && AnnotatedIn(other, m, n, k)
    requires Untouched(refs, m) && Touches(other, m, m')
    ensures Untouched(refs, m')
  {
    forall i | 0 <= i < |refs|
      ensures refs[i].addr !in Addrs(other)
    {
    }
  }

  class OptCPU {
    const assoc: nat
    const numSets: nat
    var refInfo: seq<seq<RefInfo>>
    const table: LookupTable.Table
    var cacheHeap: seq<int>
    var misses: nat
    var hits: nat

    // Simulates `paddrs` on a cache of cacheSize bytes, blockSize bytes to a block.
    constructor (paddrs: seq<nat>, blockSize: nat, cacheSize: nat, assoc: nat)
      requires exists k: nat :: Pow2(k) == blockSize
      requires assoc >= 1 && cacheSize / blockSize / assoc >= 1
      requires |paddrs| < INFINITE_REF
      requires forall b :: b in Blocks(paddrs, blockSize) ==> LookupTable.InRange(b)
      ensures Valid() && this.assoc == assoc && numSets == cacheSize / blockSize / assoc
      ensures forall s :: 0 <= s < numSets ==>
                Addrs(refInfo[s]) == RefsOf(numSets, Blocks(paddrs, blockSize), s)
      ensures misses == 0 && hits == 0
      ensures forall a :: a in table.Contents ==> table.Contents[a] == -1
      ensures fresh(table)
    {
      this.assoc := assoc;
      numSets := cacheSize / blockSize / assoc;
      refInfo := [];
      cacheHeap := [];
      table := new LookupTable.Table();
      misses, hits := 0, 0;
      new;
      var shift := LogBlockSize(blockSize);
      LoadTrace(paddrs, shift);
      AnnotateAll(Blocks(paddrs, blockSize));
      table.Reset();
    }

    // The references of each set, in trace order.
    ghost predicate Loaded(trace: seq<Block>)
      requires numSets >= 1
      reads this
    {
      |refInfo| == numSets &&
      forall s :: 0 <= s < numSets ==> Addrs(refInfo[s]) == RefsOf(numSets, trace, s)
    }

    method LogBlockSize(blockSize: nat) returns (shift: nat)
      requires exists k: nat :: Pow2(k) == blockSize
      ensures Pow2(shift) == blockSize
    {
      ghost var k: nat :| Pow2(k) == blockSize;
      var size := blockSize;
      shift := 0;
      while size > 1
        invariant shift <= k && size == Pow2(k - shift)
      {
        shift := shift + 1;
        size := size / 2;
      }
    }

    method LoadTrace(paddrs: seq<nat>, shift: nat)
      requires numSets >= 1
      modifies this`refInfo
      ensures Loaded(Blocks(paddrs, Pow2(shift)))
    {
      refInfo := seq(numSets, _ => []);
      var r := 0;
      while r < |paddrs|
        invariant r <= |paddrs| && Loaded(Blocks(paddrs[..r], Pow2(shift)))
      {
        var addr := paddrs[r] / Pow2(shift);
        var k := SetOf(numSets, addr);
        ghost var before := refInfo;
        refInfo := refInfo[k := refInfo[k] + [RefInfo(addr, 0)]];
        assert Blocks(paddrs[..r + 1], Pow2(shift)) == Blocks(paddrs[..r], Pow2(shift)) + [addr];
        forall s | 0 <= s < numSets
          ensures Addrs(refInfo[s]) == RefsOf(numSets, Blocks(paddrs[..r + 1], Pow2(shift)), s)
        {
          RefsOfAppend(numSets, Blocks(paddrs[..r], Pow2(shift)), addr, s);
          assert Addrs(before[k] + [RefInfo(addr, 0)]) == Addrs(before[k]) + [addr];
        }
        r := r + 1;
      }
      assert paddrs[..r] == paddrs;
    }

    method AnnotateAll(ghost trace: seq<Block>)
      requires table.Valid() && table.Contents == map[] && numSets >= 1 && Loaded(trace)
      requires |trace| < INFINITE_REF && forall b :: b in trace ==> LookupTable.InRange(b)
      modifies this`refInfo, table
      ensures table.Valid() && Loaded(trace)
      ensures forall s :: 0 <= s < numSets ==> AnnotatedIn(refInfo[s], table.Contents, numSets, s)
    {
      for k := 0 to numSets
        invariant table.Valid() && Loaded(trace)
        invariant forall s :: 0 <= s < k ==> AnnotatedIn(refInfo[s], table.Contents, numSets, s)
        invariant forall a :: a in table.Contents && SetOf(numSets, a) >= k ==> table.Contents[a] == INFINITE_REF
      {
        ghost var before := refInfo;
        AnnotateSet(k, trace);
        assert forall s :: 0 <= s < k ==> refInfo[s] == before[s];
      }
    }

    // Blocks of set k map to their first use at or after i, blocks of later sets to infinity.
    ghost predicate SeenFrom(k: nat, addrs: seq<int>, i: nat)
      requires numSets >= 1 && i <= |addrs| < INFINITE_REF
      reads table
    {
      (forall a :: a in table.Contents && SetOf(numSets, a) == k ==> table.Contents[a] == NextAfter(addrs, i, a)) &&
      (forall a :: a in table.Contents && SetOf(numSets, a) > k ==> table.Contents[a] == INFINITE_REF)
    }

    // Annotates one set backwards, remembering in the table where each block was last seen.
    method AnnotateSet(k: nat, ghost trace: seq<Block>)
      requires table.Valid() && k < numSets && Loaded(trace) && |trace| < INFINITE_REF
      requires forall b :: b in trace ==> LookupTable.InRange(b)
      requires forall a :: a in table.Contents && SetOf(numSets, a) >= k ==> table.Contents[a] == INFINITE_REF
      modifies this`refInfo, table
      ensures table.Valid() && Loaded(trace) && AnnotatedIn(refInfo[k], table.Contents, numSets, k)
      ensures forall s :: 0 <= s < numSets && s != k ==> refInfo[s] == old(refInfo[s])
      ensures old(table.Contents).Keys <= table.Contents.Keys
      ensures forall a :: a in table.Contents && SetOf(numSets, a) > k ==> table.Contents[a] == INFINITE_REF
    {
      ghost var addrs := RefsOf(numSets, trace, k);
      RefsOfWithin(numSets, trace, k);
      var refs := AnnotateRefs(k, refInfo[k], addrs);
      refInfo := refInfo[k := refs];
    }

    method AnnotateRefs(k: nat, refs0: seq<RefInfo>, ghost addrs: seq<int>) returns (refs: seq<RefInfo>)
      requires table.Valid() && k < numSets && addrs == Addrs(refs0) && |addrs| < INFINITE_REF
      requires forall b :: b in addrs ==> LookupTable.InRange(b) && SetOf(numSets, b) == k
      requires SeenFrom(k, addrs, |addrs|)
      modifies table
      ensures table.Valid() && Addrs(refs) == addrs && AnnotatedIn(refs, table.Contents, numSets, k)
      ensures old(table.Contents).Keys <= table.Contents.Keys
      ensures SeenFrom(k, addrs, 0)
    {
      hide NextAfter, SetOf, Addrs, SeenFrom, AnnotatedIn, AnnotatedFrom;
      refs := refs0;
      var i := |refs| - 1;
      NoneAnnotated(refs, addrs, table.Contents);
      while i >= 0
        invariant table.Valid() && Addrs(refs) == addrs && -1 <= i < |addrs|
        invariant old(table.Contents).Keys <= table.Contents.Keys
        invariant AnnotatedFrom(refs, addrs, table.Contents, i + 1)
        invariant SeenFrom(k, addrs, i + 1)
      {
        assert refs[i].addr == addrs[i];
        ghost var m := table.Contents;
        InTable(refs, addrs, m, i + 1);
        var next := VisitRef(k, refs[i].addr, i, addrs);
        SameAddrs(refs, i, next);
        OneMore(refs, addrs, m, table.Contents, i, next);
        refs := refs[i := refs[i].(nextRefTime := next)];
        i := i - 1;
      }
      AllAnnotated(refs, addrs, table.Contents, numSets, k);
    }

    static lemma SameAddrs(refs: seq<RefInfo>, i: nat, next: int)
      requires i < |refs|
      ensures Addrs(refs[i := refs[i].(nextRefTime := next)]) == Addrs(refs)
    {
    }

    method VisitRef(k: nat, addr: int, i: nat, ghost addrs: seq<int>) returns (next: int)
      requires table.Valid() && k < numSets && i < |addrs| < INFINITE_REF
      requires addr == addrs[i] && LookupTable.InRange(addr) && SetOf(numSets, addr) == k
      requires SeenFrom(k, addrs, i + 1)
      requires forall j :: i < j < |addrs| ==> addrs[j] in table.Contents
      modifies table
      ensures table.Valid() && SeenFrom(k, addrs, i)
      ensures addr in table.Contents && old(table.Contents).Keys <= table.Contents.Keys
      ensures next == NextAfter(addrs, i + 1, addr)
    {
      table.InitTable(addr, INFINITE_REF);
      forall a | a in table.Contents && SetOf(numSets, a) == k && a !in old(table.Contents)
        ensures NextAfter(addrs, i + 1, a) == INFINITE_REF
      {
        var t := NextAfter(addrs, i + 1, a);
      }
      next := table.LookupValue(addr);
      table.SetValue(addr, i);
      forall a | a in table.Contents && SetOf(numSets, a) == k
        ensures table.Contents[a] == NextAfter(addrs, i, a)
      {
        NextAfterStep(addrs, i, a);
      }
    }

    // The trace is annotated and every address in it has a table entry.
    ghost predicate Valid()
      reads this, table
    {
      table.Valid() && assoc >= 1 && numSets >= 1 && |refInfo| == numSets &&
      forall s :: 0 <= s < numSets ==> AnnotatedIn(refInfo[s], table.Contents, numSets, s)
    }

    ghost predicate Ready(s: nat)
      reads this, table
    {
      table.Valid() && s < |refInfo| && |cacheHeap| == assoc &&
      Linked(refInfo[s], table.Contents, cacheHeap, assoc)
    }

    method HeapSwap(s: nat, a: nat, b: nat)
      requires Ready(s) && a < assoc && b < assoc && a != b
      modifies this`cacheHeap, table
      ensures Ready(s)
      ensures cacheHeap == old(cacheHeap)[a := old(cacheHeap)[b]][b := old(cacheHeap)[a]]
      ensures multiset(cacheHeap) == old(multiset(cacheHeap))
      ensures Touches(refInfo[s], old(table.Contents), table.Contents)
    {
      var tmp := cacheHeap[a];
      cacheHeap := cacheHeap[a := cacheHeap[b]];
      cacheHeap := cacheHeap[b := tmp];
      table.SetValue(refInfo[s][cacheHeap[a]].addr, a);
      table.SetValue(refInfo[s][cacheHeap[b]].addr, b);
      SwapLinked(refInfo[s], old(table.Contents), old(cacheHeap), a, b, cacheHeap, table.Contents);
    }

    method Heapify(s: nat, start: nat, ghost lo: nat)
      requires Ready(s) && lo <= start < assoc
      requires Ordered(refInfo[s], cacheHeap, lo, -1, start) && Bridged(refInfo[s], cacheHeap, lo, start)
      modifies this`cacheHeap, table
      ensures Ready(s) && IsHeap(refInfo[s], cacheHeap, lo)
      ensures multiset(cacheHeap) == old(multiset(cacheHeap))
      ensures Touches(refInfo[s], old(table.Contents), table.Contents)
      decreases assoc - start
    {
      hide Linked, Touches, Ordered, Bridged, IsHeap, Parent;
      LinkedIds(refInfo[s], table.Contents, cacheHeap, assoc);
      var left, right := start + start + 1, start + start + 2;
      var max := start;
      if left < assoc && Rank(refInfo[s], cacheHeap, left) > Rank(refInfo[s], cacheHeap, start) {
        max := left;
      }
      if right < assoc && Rank(refInfo[s], cacheHeap, right) > Rank(refInfo[s], cacheHeap, max) {
        max := right;
      }
      forall c | 0 < c < assoc && Parent(c) == start
        ensures Rank(refInfo[s], cacheHeap, c) <= Rank(refInfo[s], cacheHeap, max)
      {
        Children(c, start);
      }
      if max == start {
        SiftDone(refInfo[s], cacheHeap, lo, start);
        TouchesItself(refInfo[s], table.Contents);
      } else {
        IsChild(max, start);
        HeapSwap(s, start, max);
        ghost var m := table.Contents;
        SiftDownStep(refInfo[s], old(cacheHeap), lo, start, max, cacheHeap);
        Heapify(s, max, lo);
        TouchesTransitive(refInfo[s], old(table.Contents), m, table.Contents);
      }
    }

    method ProcessRankIncrease(s: nat, node: nat)
      requires Ready(s) && node < assoc
      requires Ordered(refInfo[s], cacheHeap, 0, node, -1) && Bridged(refInfo[s], cacheHeap, 0, node)
      modifies this`cacheHeap, table
      ensures Ready(s) && IsHeap(refInfo[s], cacheHeap, 0)
      ensures multiset(cacheHeap) == old(multiset(cacheHeap))
      ensures Touches(refInfo[s], old(table.Contents), table.Contents)
    {
      var start := node;
      var parent := Parent(start);
      while start > 0 && Rank(refInfo[s], cacheHeap, parent) < Rank(refInfo[s], cacheHeap, start)
        invariant Ready(s) && 0 <= start < assoc && parent == Parent(start)
        invariant Ordered(refInfo[s], cacheHeap, 0, start, -1) && Bridged(refInfo[s], cacheHeap, 0, start)
        invariant multiset(cacheHeap) == old(multiset(cacheHeap))
        invariant Touches(refInfo[s], old(table.Contents), table.Contents)
      {
        ghost var before := cacheHeap;
        HeapSwap(s, parent, start);
        SiftUpStep(refInfo[s], before, start, cacheHeap);
        start := parent;
        parent := Parent(start);
      }
    }

    // Counters are only used through differences to these starting values.
    ghost predicate Placed(s: nat, n: nat, i: nat, misses0: nat, hits0: nat)
      reads this, table
    {
      table.Valid() && s < |refInfo| && misses0 <= misses && hits0 <= hits &&
      Sim(assoc, refInfo[s], table.Contents, cacheHeap, n, i, misses - misses0) &&
      (misses - misses0) + (hits - hits0) == i
    }

    // Runs until the cache is full or the references of the set are exhausted.
    method FillCache(s: nat) returns (i: nat, ghost n: nat)
      requires table.Valid() && s < |refInfo| && refInfo[s] != [] && Annotated(refInfo[s])
      requires Untouched(refInfo[s], table.Contents)
      modifies this`cacheHeap, this`misses, this`hits, table
      ensures Touches(refInfo[s], old(table.Contents), table.Contents)
      ensures Placed(s, n, i, old(misses), old(hits))
      ensures i < |refInfo[s]| ==> n == assoc
    {
      var blksInCache: nat := 0;
      i, n := 0, 0;
      cacheHeap := seq(assoc, _ => 0);
      OnCourseStart(assoc, refInfo[s]);
      assert Cached(refInfo[s], cacheHeap, 0) == {};
      while blksInCache < assoc
        invariant n == blksInCache <= assoc && i < |refInfo[s]|
        invariant Placed(s, blksInCache, i, old(misses), old(hits))
        invariant Touches(refInfo[s], old(table.Contents), table.Contents)
        decreases |refInfo[s]| - i
      {
        blksInCache := FillOne(s, blksInCache, i, old(misses), old(hits));
        i, n := i + 1, blksInCache;
        if i >= |refInfo[s]| {
          return;
        }
      }
    }

    method FillOne(s: nat, blks: nat, i: nat, ghost misses0: nat, ghost hits0: nat) returns (blks': nat)
      requires blks < assoc && s < |refInfo| && i < |refInfo[s]| && Placed(s, blks, i, misses0, hits0)
      modifies this`cacheHeap, this`misses, this`hits, table
      ensures Placed(s, blks', i + 1, misses0, hits0)
      ensures Touches(refInfo[s], old(table.Contents), table.Contents)
    {
      hide Current, OnCourse;
      ghost var refs, m, h, done := refInfo[s], table.Contents, cacheHeap, misses - misses0;
      var cacheIndex := table.LookupValue(refInfo[s][i].addr);
      if cacheIndex == -1 {
        misses := misses + 1;
        cacheIndex := blks;
        blks' := blks + 1;
        table.SetValue(refInfo[s][i].addr, cacheIndex);
        cacheHeap := cacheHeap[cacheIndex := i];
        SimFill(assoc, refs, m, h, blks, i, done);
        assert table.Contents == m[refs[i].addr := blks];
      } else {
        hits := hits + 1;
        blks' := blks;
        cacheHeap := cacheHeap[cacheIndex := i];
        SimRenew(assoc, refs, m, h, blks, i, done);
        assert table.Contents == m;
      }
    }

    method BuildHeap(s: nat)
      requires Ready(s) && assoc >= 1
      modifies this`cacheHeap, table
      ensures Ready(s) && IsHeap(refInfo[s], cacheHeap, 0)
      ensures multiset(cacheHeap) == old(multiset(cacheHeap))
      ensures Touches(refInfo[s], old(table.Contents), table.Contents)
    {
      var start: int := assoc / 2;
      while start >= 0
        invariant -1 <= start < assoc && Ready(s) && IsHeap(refInfo[s], cacheHeap, start + 1)
        invariant multiset(cacheHeap) == old(multiset(cacheHeap))
        invariant Touches(refInfo[s], old(table.Contents), table.Contents)
      {
        Heapify(s, start, start);
        start := start - 1;
      }
    }

    // A reference that is not cached replaces the root of the heap.
    method ReplaceOne(s: nat, i: nat, ghost misses0: nat, ghost hits0: nat)
      requires assoc >= 1 && Placed(s, assoc, i, misses0, hits0) && i < |refInfo[s]|
      requires IsHeap(refInfo[s], cacheHeap, 0) && table.Contents[refInfo[s][i].addr] == -1
      modifies this`cacheHeap, this`misses, table
      ensures Placed(s, assoc, i + 1, misses0, hits0) && IsHeap(refInfo[s], cacheHeap, 0)
      ensures Touches(refInfo[s], old(table.Contents), table.Contents)
    {
      hide Sim, Linked, Annotated, Current, OnCourse, IsHeap, Ordered, Bridged, Touches;
      ReplaceRoot(s, i, misses0, hits0);
      ghost var refs, m, h, done := refInfo[s], table.Contents, cacheHeap, misses - misses0;
      SimFacts(assoc, refs, m, h, assoc, i + 1, done);
      Heapify(s, 0, 0);
      TouchesTransitive(refs, old(table.Contents), m, table.Contents);
      SimPermuted(assoc, refs, m, h, table.Contents, cacheHeap, i + 1, done);
    }

    // The block at the root goes, the referenced block comes in its place.
    method ReplaceRoot(s: nat, i: nat, ghost misses0: nat, ghost hits0: nat)
      requires assoc >= 1 && Placed(s, assoc, i, misses0, hits0) && i < |refInfo[s]|
      requires IsHeap(refInfo[s], cacheHeap, 0) && table.Contents[refInfo[s][i].addr] == -1
      modifies this`cacheHeap, this`misses, table
      ensures Placed(s, assoc, i + 1, misses0, hits0)
      ensures Ordered(refInfo[s], cacheHeap, 0, -1, 0) && Bridged(refInfo[s], cacheHeap, 0, 0)
      ensures Touches(refInfo[s], old(table.Contents), table.Contents)
    {
      hide Sim, Linked, Annotated, Current, OnCourse, IsHeap, Ordered, Bridged, Touches;
      ghost var refs, m, h, done := refInfo[s], table.Contents, cacheHeap, misses - misses0;
      SimFacts(assoc, refs, m, h, assoc, i, done);
      SimReplace(assoc, refs, m, h, i, done);
      RootReplaced(refs, h, i);
      misses := misses + 1;
      table.SetValue(refInfo[s][cacheHeap[0]].addr, -1);
      table.SetValue(refInfo[s][i].addr, 0);
      cacheHeap := cacheHeap[0 := i];
    }

    // A cached block moves to its new rank; the checks made on the way always pass.
    method TouchOne(s: nat, i: nat, p: nat, ghost misses0: nat, ghost hits0: nat)
      requires assoc >= 1 && Placed(s, assoc, i, misses0, hits0) && i < |refInfo[s]|
      requires IsHeap(refInfo[s], cacheHeap, 0) && table.Contents[refInfo[s][i].addr] == p
      modifies this`cacheHeap, this`hits, table
      ensures Placed(s, assoc, i + 1, misses0, hits0) && IsHeap(refInfo[s], cacheHeap, 0)
      ensures Touches(refInfo[s], old(table.Contents), table.Contents)
    {
      hide Sim, Linked, Annotated, Current, OnCourse, IsHeap, Ordered, Bridged, Touches;
      ghost var refs, m, h, done := refInfo[s], table.Contents, cacheHeap, misses - misses0;
      SimFacts(assoc, refs, m, h, assoc, i, done);
      HitIsLeaf(refs, m, h, i, p);
      SimRenew(assoc, refs, m, h, assoc, i, done);
      LeafRenewed(refs, h, p, i);
      hits := hits + 1;
      assert refInfo[s][cacheHeap[p]].addr == refInfo[s][i].addr;
      assert refInfo[s][cacheHeap[p]].nextRefTime == i;
      assert p + p + 1 >= assoc;
      cacheHeap := cacheHeap[p := i];
      ghost var h1 := cacheHeap;
      SimFacts(assoc, refs, m, h1, assoc, i + 1, done);
      ProcessRankIncrease(s, p);
      SimPermuted(assoc, refs, m, h1, table.Contents, cacheHeap, i + 1, done);
    }

    // Replays one set; its misses are the least possible.
    method ProcessSet(s: nat)
      requires table.Valid() && assoc >= 1 && s < |refInfo| && refInfo[s] != []
      requires Annotated(refInfo[s]) && Untouched(refInfo[s], table.Contents)
      modifies this`cacheHeap, this`misses, this`hits, table
      ensures table.Valid() && Touches(refInfo[s], old(table.Contents), table.Contents)
      ensures misses >= old(misses) && IsSetOptimum(assoc, Addrs(refInfo[s]), misses - old(misses))
      ensures hits + misses == old(hits) + old(misses) + |refInfo[s]|
    {
      hide Sim, Linked, Annotated, Current, OnCourse, IsHeap, Ordered, Bridged, IsSetOptimum, Touches;
      ghost var refs := refInfo[s];
      var i, n := FillCache(s);
      if i < |refInfo[s]| {
        ghost var m := table.Contents;
        i := ReplayRest(s, i, old(misses), old(hits));
        TouchesTransitive(refs, old(table.Contents), m, table.Contents);
      }
      SimFacts(assoc, refs, table.Contents, cacheHeap, n, i, misses - old(misses));
      OnCourseEnd(assoc, refs, Cached(refs, cacheHeap, n), misses - old(misses));
    }

    // Once the cache is full: makes the heap and goes on with it.
    method ReplayRest(s: nat, i0: nat, ghost misses0: nat, ghost hits0: nat) returns (i: nat)
      requires assoc >= 1 && Placed(s, assoc, i0, misses0, hits0)
      modifies this`cacheHeap, this`misses, this`hits, table
      ensures s < |refInfo| && i == |refInfo[s]| && Placed(s, assoc, i, misses0, hits0)
      ensures Touches(refInfo[s], old(table.Contents), table.Contents)
    {
      hide Sim, Linked, Annotated, Current, OnCourse, IsHeap, Ordered, Bridged, Touches;
      ghost var refs, m, h, done := refInfo[s], table.Contents, cacheHeap, misses - misses0;
      SimFacts(assoc, refs, m, h, assoc, i0, done);
      BuildHeap(s);
      ghost var m' := table.Contents;
      SimPermuted(assoc, refs, m, h, m', cacheHeap, i0, done);
      i := ReplayFull(s, i0, misses0, hits0);
      TouchesTransitive(refs, m, m', table.Contents);
    }

    method ReplayFull(s: nat, i0: nat, ghost misses0: nat, ghost hits0: nat) returns (i: nat)
      requires assoc >= 1 && Placed(s, assoc, i0, misses0, hits0) && IsHeap(refInfo[s], cacheHeap, 0)
      modifies this`cacheHeap, this`misses, this`hits, table
      ensures s < |refInfo| && i == |refInfo[s]| && Placed(s, assoc, i, misses0, hits0)
      ensures Touches(refInfo[s], old(table.Contents), table.Contents)
    {
      hide Sim, Linked, Annotated, Current, OnCourse, IsHeap, Ordered, Bridged;
      i := i0;
      SimFacts(assoc, refInfo[s], table.Contents, cacheHeap, assoc, i, misses - misses0);
      while i < |refInfo[s]|
        invariant i <= |refInfo[s]| && Ids(refInfo[s], cacheHeap, |cacheHeap|)
        invariant Placed(s, assoc, i, misses0, hits0) && IsHeap(refInfo[s], cacheHeap, 0)
        invariant Touches(refInfo[s], old(table.Contents), table.Contents)
      {
        SimFacts(assoc, refInfo[s], table.Contents, cacheHeap, assoc, i, misses - misses0);
        var cacheIndex := table.LookupValue(refInfo[s][i].addr);
        if cacheIndex == -1 {
          ReplaceOne(s, i, misses0, hits0);
        } else {
          TouchOne(s, i, cacheIndex, misses0, hits0);
        }
        i := i + 1;
        SimFacts(assoc, refInfo[s], table.Contents, cacheHeap, assoc, i, misses - misses0);
      }
    }

    // The whole simulation: no replacement policy has fewer misses on the trace.
    method Tick(ghost trace: seq<Block>) returns (references: nat)
      requires Valid() && Loaded(trace) && misses == 0 && hits == 0
      requires forall a :: a in table.Contents ==> table.Contents[a] == -1
      modifies this`cacheHeap, this`misses, this`hits, table
      ensures IsOptimum(assoc, numSets, trace, misses)
      ensures references == |trace| && hits + misses == references
    {
      hide IsSetOptimum, Annotated, AnnotatedIn, Untouched;
      references := 0;
      AllUntouched();
      ghost var ms: seq<nat>, ls: seq<nat> := [], [];
      for s := 0 to numSets
        invariant Valid() && |ms| == s && |ls| == s
        invariant forall k :: 0 <= k < s ==> IsSetOptimum(assoc, RefsOf(numSets, trace, k), ms[k])
        invariant forall k :: 0 <= k < s ==> ls[k] == |RefsOf(numSets, trace, k)|
        invariant misses == Sum(ms) && references == Sum(ls) && hits + misses == references
        invariant forall k :: s <= k < numSets ==> Untouched(refInfo[k], table.Contents)
      {
        ghost var misses0 := misses;
        TickSet(s);
        references := references + |refInfo[s]|;
        SumAppend(ms, misses - misses0);
        SumAppend(ls, |refInfo[s]|);
        ms, ls := ms + [misses - misses0], ls + [|refInfo[s]|];
      }
      SetsCompose(assoc, numSets, trace, ms);
      assert ls == SetSizes(numSets, trace);
      SetSizesAddUp(numSets, trace);
    }

    lemma AllUntouched()
      requires Valid() && forall a :: a in table.Contents ==> table.Contents[a] == -1
      ensures forall k :: 0 <= k < numSets ==> Untouched(refInfo[k], table.Contents)
    {
    }

    method TickSet(s: nat)
      requires Valid() && s < numSets
      requires forall k :: s <= k < numSets ==> Untouched(refInfo[k], table.Contents)
      modifies this`cacheHeap, this`misses, this`hits, table
      ensures Valid()
      ensures forall k :: s < k < numSets ==> Untouched(refInfo[k], table.Contents)
      ensures misses >= old(misses) && IsSetOptimum(assoc, Addrs(refInfo[s]), misses - old(misses))
      ensures hits + misses == old(hits) + old(misses) + |refInfo[s]|
    {
      hide IsSetOptimum, Annotated, Untouched;
      assert AnnotatedIn(refInfo[s], table.Contents, numSets, s);
      if refInfo[s] == [] {
        EmptySetOptimum(assoc, refInfo[s]);
      } else {
        ghost var m := table.Contents;
        ProcessSet(s);
        forall k | s < k < numSets
          ensures Untouched(refInfo[k], table.Contents)
        {
          assert Untouched(refInfo[k], m);
          assert AnnotatedIn(refInfo[k], m, numSets, k);
          StaysUntouched(numSets, refInfo[k], k, refInfo[s], s, m, table.Contents);
        }
      }
    }
  }

  // Create a simulator for a trace and tick it once, as the simulator object does.
  method Simulate(paddrs: seq<nat>, blockSize: nat, cacheSize: nat, assoc: nat)
    returns (misses: nat, hits: nat, references: nat)
    requires exists k: nat :: Pow2(k) == blockSize
    requires assoc >= 1 && cacheSize / blockSize / assoc >= 1
    requires |paddrs| < INFINITE_REF
    requires forall b :: b in Blocks(paddrs, blockSize) ==> LookupTable.InRange(b)
    ensures IsOptimum(assoc, cacheSize / blockSize / assoc, Blocks(paddrs, blockSize), misses)
    ensures references == |paddrs| && hits + misses == references
  {
    var cpu := new OptCPU(paddrs, blockSize, cacheSize, assoc);
    references := cpu.Tick(Blocks(paddrs, blockSize));
    misses, hits := cpu.misses, cpu.hits;
  }
}
