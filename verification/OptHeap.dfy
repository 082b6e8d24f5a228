/**
 Facts about the replacement heap of the optimal-cache simulator: positions in the heap name
 references, ranked by when the referenced block is used next.
 */
module OptHeap {
  import opened Replacement

  const INFINITE_REF := 0x7fff_ffff

  datatype RefInfo = RefInfo(addr: int, nextRefTime: int)

  function Addrs(refs: seq<RefInfo>): (a: seq<int>)
    ensures |a| == |refs|
    ensures forall i :: 0 <= i < |refs| ==> a[i] == refs[i].addr
  {
    seq(|refs|, i requires 0 <= i < |refs| => refs[i].addr)
  }

  // Index of the first use of `a` at or after `i`, or INFINITE_REF.
  function NextAfter(addrs: seq<int>, i: nat, a: int): (t: int)
    requires i <= |addrs| < INFINITE_REF
    ensures t == INFINITE_REF || (i <= t < |addrs| && addrs[t] == a)
    ensures forall j :: i <= j < t && j < |addrs| ==> addrs[j] != a
  {
    var f := FirstUse(addrs[i..], a);
    assert forall j :: i <= j < i + f ==> addrs[j] == addrs[i..][j - i];
    if i + f < |addrs| then i + f else INFINITE_REF
  }

  lemma NextAfterStep(addrs: seq<int>, i: nat, a: int)
    requires i < |addrs| < INFINITE_REF
    ensures NextAfter(addrs, i, a) == if addrs[i] == a then i else NextAfter(addrs, i + 1, a)
  {
    assert addrs[i..][1..] == addrs[i + 1..];
  }

  // Every reference carries the time of the next reference to the same block.
  ghost predicate Annotated(refs: seq<RefInfo>) {
    |refs| < INFINITE_REF &&
    forall i :: 0 <= i < |refs| ==> NextRefOk(refs, i)
  }

  ghost predicate NextRefOk(refs: seq<RefInfo>, i: nat)
    requires i < |refs| < INFINITE_REF
  {
    refs[i].nextRefTime == NextAfter(Addrs(refs), i + 1, refs[i].addr)
  }

  // An annotation that has not been reached yet tells the distance to the next use.
  lemma RankIsFirstUse(refs: seq<RefInfo>, x: nat, t: nat)
    requires Annotated(refs) && x < t <= |refs| && t <= refs[x].nextRefTime
    ensures refs[x].nextRefTime == NextAfter(Addrs(refs), t, refs[x].addr)
  {
    var a, addrs := refs[x].addr, Addrs(refs);
    var n, n' := refs[x].nextRefTime, NextAfter(addrs, t, a);
    assert NextRefOk(refs, x);
    assert n < |addrs| ==> addrs[n] == a;
    assert n' < |addrs| ==> addrs[n'] == a;
  }

  function Parent(c: int): int { (c - 1) / 2 }

  ghost predicate Ids(refs: seq<RefInfo>, heap: seq<int>, n: nat) {
    n <= |heap| && forall j :: 0 <= j < n ==> 0 <= heap[j] < |refs|
  }

  function Rank(refs: seq<RefInfo>, heap: seq<int>, j: int): int
    requires 0 <= j < |heap| && 0 <= heap[j] < |refs|
  {
    refs[heap[j]].nextRefTime
  }

  // The max-heap order on every edge whose upper end is at or below `lo`, except edge `skip`.
  ghost predicate Ordered(refs: seq<RefInfo>, heap: seq<int>, lo: nat, skipChild: int, skipParent: int)
    requires Ids(refs, heap, |heap|)
  {
    forall c :: 0 < c < |heap| && Parent(c) >= lo && c != skipChild && Parent(c) != skipParent ==>
      Rank(refs, heap, Parent(c)) >= Rank(refs, heap, c)
  }

  ghost predicate IsHeap(refs: seq<RefInfo>, heap: seq<int>, lo: nat)
    requires Ids(refs, heap, |heap|)
  {
    Ordered(refs, heap, lo, -1, -1)
  }

  // The children of `hole` rank no higher than its parent.
  ghost predicate Bridged(refs: seq<RefInfo>, heap: seq<int>, lo: nat, hole: nat)
    requires Ids(refs, heap, |heap|) && hole < |heap|
  {
    hole > 0 && Parent(hole) >= lo ==>
      forall c :: 0 < c < |heap| && Parent(c) == hole ==> Rank(refs, heap, Parent(hole)) >= Rank(refs, heap, c)
  }

  // Where no child ranks above its parent, nothing is violated.
  lemma SiftDone(refs: seq<RefInfo>, h: seq<int>, lo: nat, start: nat)
    requires Ids(refs, h, |h|) && start < |h| && Ordered(refs, h, lo, -1, start)
    requires forall c :: 0 < c < |h| && Parent(c) == start ==> Rank(refs, h, c) <= Rank(refs, h, start)
    ensures IsHeap(refs, h, lo)
  {
  }

  lemma Children(c: int, start: nat)
    requires c > 0 && Parent(c) == start
    ensures c == start + start + 1 || c == start + start + 2
  {
  }

  lemma IsChild(c: int, start: nat)
    requires c == start + start + 1 || c == start + start + 2
    ensures Parent(c) == start
  {
  }

  // Moving the larger child up leaves order violated only below that child's place.
  lemma SiftDownStep(refs: seq<RefInfo>, h: seq<int>, lo: nat, start: nat, max: nat, h': seq<int>)
    requires Ids(refs, h, |h|) && lo <= start < |h| && max < |h| && Parent(max) == start && max > 0
    requires Ordered(refs, h, lo, -1, start) && Bridged(refs, h, lo, start)
    requires forall c :: 0 < c < |h| && Parent(c) == start ==> Rank(refs, h, c) <= Rank(refs, h, max)
    requires Rank(refs, h, start) <= Rank(refs, h, max)
    requires h' == h[start := h[max]][max := h[start]]
    ensures Ids(refs, h', |h'|) && Ordered(refs, h', lo, -1, max) && Bridged(refs, h', lo, max)
  {
  }

  // Moving a risen element above its parent leaves order violated only at the parent's place.
  lemma SiftUpStep(refs: seq<RefInfo>, h: seq<int>, start: nat, h': seq<int>)
    requires Ids(refs, h, |h|) && 0 < start < |h|
    requires Ordered(refs, h, 0, start, -1) && Bridged(refs, h, 0, start)
    requires Rank(refs, h, Parent(start)) < Rank(refs, h, start)
    requires h' == h[Parent(start) := h[start]][start := h[Parent(start)]]
    ensures Ids(refs, h', |h'|)
    ensures Ordered(refs, h', 0, Parent(start), -1) && Bridged(refs, h', 0, Parent(start))
  {
  }

  lemma {:induction false} RootIsMax(refs: seq<RefInfo>, heap: seq<int>, j: nat)
    requires Ids(refs, heap, |heap|) && IsHeap(refs, heap, 0) && j < |heap|
    ensures Rank(refs, heap, 0) >= Rank(refs, heap, j)
  {
    if j > 0 {
      RootIsMax(refs, heap, Parent(j));
    }
  }

  // Heap positions and table entries describe the same one-to-one placement of blocks.
  ghost predicate Linked(refs: seq<RefInfo>, m: map<int, int>, heap: seq<int>, n: nat) {
    Ids(refs, heap, n) &&
    (forall j :: 0 <= j < n ==> refs[heap[j]].addr in m && m[refs[heap[j]].addr] == j) &&
    (forall i :: 0 <= i < |refs| ==> refs[i].addr in m && -1 <= m[refs[i].addr] < n) &&
    (forall i :: 0 <= i < |refs| && m[refs[i].addr] != -1 ==>
      refs[heap[m[refs[i].addr]]].addr == refs[i].addr)
  }

  // What the heap holds is each block's latest reference before time i.
  ghost predicate Current(refs: seq<RefInfo>, heap: seq<int>, n: nat, i: nat)
    requires Ids(refs, heap, n)
  {
    forall j :: 0 <= j < n ==> heap[j] < i <= Rank(refs, heap, j)
  }

  // The blocks in the simulated cache.
  ghost function Cached(refs: seq<RefInfo>, heap: seq<int>, n: nat): (c: set<Block>)
    requires Ids(refs, heap, n)
  {
    set j | 0 <= j < n :: refs[heap[j]].addr
  }

  lemma {:induction false} CachedSize(refs: seq<RefInfo>, m: map<int, int>, heap: seq<int>, n: nat)
    requires Ids(refs, heap, n)
    requires forall j :: 0 <= j < n ==> refs[heap[j]].addr in m && m[refs[heap[j]].addr] == j
    ensures |Cached(refs, heap, n)| == n
  {
    if n == 0 {
      assert Cached(refs, heap, 0) == {};
    } else {
      CachedSize(refs, m, heap, n - 1);
      CachedSnoc(refs, heap, n - 1);
      var last := refs[heap[n - 1]].addr;
      forall j | 0 <= j < n - 1
        ensures refs[heap[j]].addr != last
      {
        assert m[refs[heap[j]].addr] == j && m[last] == n - 1;
      }
      assert last !in Cached(refs, heap, n - 1);
    }
  }

  lemma CachedSnoc(refs: seq<RefInfo>, heap: seq<int>, n: nat)
    requires Ids(refs, heap, n + 1)
    ensures Cached(refs, heap, n + 1) == Cached(refs, heap, n) + {refs[heap[n]].addr}
  {
    var all, some := Cached(refs, heap, n + 1), Cached(refs, heap, n);
    forall b | b in all
      ensures b in some || b == refs[heap[n]].addr
    {
      var j :| 0 <= j < n + 1 && b == refs[heap[j]].addr;
    }
  }

  lemma CachedIffTable(refs: seq<RefInfo>, m: map<int, int>, heap: seq<int>, n: nat, i: nat)
    requires Linked(refs, m, heap, n) && i < |refs|
    ensures refs[i].addr in Cached(refs, heap, n) <==> m[refs[i].addr] != -1
  {
  }

  // Permuting the heap changes neither the cached blocks nor their currency.
  lemma SameContents(refs: seq<RefInfo>, h: seq<int>, h': seq<int>)
    requires Ids(refs, h, |h|) && multiset(h) == multiset(h')
    ensures |h| == |h'| && Ids(refs, h', |h'|)
    ensures Cached(refs, h, |h|) == Cached(refs, h', |h'|)
    ensures forall i: nat :: Current(refs, h, |h|, i) ==> Current(refs, h', |h'|, i)
  {
    assert |multiset(h)| == |h| && |multiset(h')| == |h'|;
    forall j | 0 <= j < |h'|
      ensures h'[j] in h
    {
      assert h'[j] in multiset(h');
    }
    forall j | 0 <= j < |h|
      ensures h[j] in h'
    {
      assert h[j] in multiset(h);
    }
  }

  // A block about to be used has the lowest rank, so it sits in a leaf.
  lemma HitIsLeaf(refs: seq<RefInfo>, m: map<int, int>, heap: seq<int>, i: nat, p: nat)
    requires Annotated(refs) && i < |refs|
    requires Linked(refs, m, heap, |heap|) && Current(refs, heap, |heap|, i) && IsHeap(refs, heap, 0)
    requires m[refs[i].addr] == p
    ensures p < |heap| && refs[heap[p]].addr == refs[i].addr
    ensures Rank(refs, heap, p) == i
    ensures 2 * p + 1 >= |heap|
  {
    RankIsFirstUse(refs, heap[p], i);
    if 2 * p + 1 < |heap| {
      var c := 2 * p + 1;
      assert Parent(c) == p;
      RankIsFirstUse(refs, heap[c], i);
      assert false;
    }
  }

  // A new element in a leaf can only violate order towards its parent.
  lemma LeafRenewed(refs: seq<RefInfo>, h: seq<int>, p: nat, i: nat)
    requires Ids(refs, h, |h|) && IsHeap(refs, h, 0) && i < |refs|
    requires p < |h| && 2 * p + 1 >= |h|
    ensures Ids(refs, h[p := i], |h|)
    ensures Ordered(refs, h[p := i], 0, p, -1) && Bridged(refs, h[p := i], 0, p)
  {
  }

  // A new element at the root can only violate order towards its children.
  lemma RootReplaced(refs: seq<RefInfo>, h: seq<int>, i: nat)
    requires Ids(refs, h, |h|) && IsHeap(refs, h, 0) && i < |refs| && |h| > 0
    ensures Ids(refs, h[0 := i], |h|)
    ensures Ordered(refs, h[0 := i], 0, -1, 0) && Bridged(refs, h[0 := i], 0, 0)
  {
  }

  // The root is a block whose next use is furthest away among all cached blocks.
  lemma RootIsFurthest(refs: seq<RefInfo>, m: map<int, int>, heap: seq<int>, i: nat)
    requires Annotated(refs) && i < |refs| && |heap| > 0
    requires Linked(refs, m, heap, |heap|) && Current(refs, heap, |heap|, i) && IsHeap(refs, heap, 0)
    requires m[refs[i].addr] == -1
    ensures forall y :: y in Cached(refs, heap, |heap|) ==>
              FirstUse(Addrs(refs)[i + 1..], y) <= FirstUse(Addrs(refs)[i + 1..], refs[heap[0]].addr)
  {
    forall j | 0 <= j < |heap|
      ensures FirstUse(Addrs(refs)[i + 1..], refs[heap[j]].addr) <= FirstUse(Addrs(refs)[i + 1..], refs[heap[0]].addr)
    {
      NotUsedNow(refs, heap[j], i);
      NotUsedNow(refs, heap[0], i);
      RankIsFirstUse(refs, heap[j], i + 1);
      RankIsFirstUse(refs, heap[0], i + 1);
      RootIsMax(refs, heap, j);
    }
  }

  // A cached block other than the one referenced at i is next used after i.
  lemma NotUsedNow(refs: seq<RefInfo>, x: nat, i: nat)
    requires Annotated(refs) && x < i < |refs| && i <= refs[x].nextRefTime
    requires refs[x].addr != refs[i].addr
    ensures refs[x].nextRefTime > i
  {
    assert NextRefOk(refs, x);
    var n := refs[x].nextRefTime;
    assert n < |refs| ==> Addrs(refs)[n] == refs[x].addr;
  }

  // After reference i takes place p, everything placed is current for time i + 1.
  lemma CurrentAdvances(refs: seq<RefInfo>, h: seq<int>, n: nat, p: nat, n': nat, i: nat)
    requires Annotated(refs) && i < |refs| && Ids(refs, h, n) && Current(refs, h, n, i)
    requires p < n' <= |h| && n' <= n + 1 && (p == n || n' == n)
    requires forall j :: 0 <= j < n && j != p ==> refs[h[j]].addr != refs[i].addr
    ensures Ids(refs, h[p := i], n') && Current(refs, h[p := i], n', i + 1)
  {
    assert NextRefOk(refs, i);
    var h' := h[p := i];
    forall j | 0 <= j < n' && j != p
      ensures h'[j] == h[j] && 0 <= h[j] < |refs| && h[j] < i + 1 <= refs[h[j]].nextRefTime
    {
      NotUsedNow(refs, h[j], i);
    }
  }
}
