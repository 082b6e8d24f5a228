/**
 The reorder queue of the O3 pipeline viewer.  Retired instructions are queued out of order;
 when the queue exceeds max_threshold it is sorted by sequence number and printed from the
 front until min_threshold instructions are left.
 */
module PipeView {
  import opened Arithmetic

  datatype Inst = Inst(sn: int, fetch: int, retire: int, disasm: string)

  // ----- Sorting by sequence number, stably -----

  function Insert(s: seq<Inst>, x: Inst): (r: seq<Inst>)
    ensures |r| == |s| + 1
  {
    if s == [] || s[|s| - 1].sn <= x.sn then s + [x]
    else Insert(s[..|s| - 1], x) + [s[|s| - 1]]
  }

  function Sort(s: seq<Inst>): (r: seq<Inst>)
    ensures |r| == |s|
  {
    if s == [] then [] else Insert(Sort(s[..|s| - 1]), s[|s| - 1])
  }

  lemma {:induction false} InsertPermutes(s: seq<Inst>, x: Inst)
    ensures multiset(Insert(s, x)) == multiset(s) + multiset{x}
  {
    if s != [] && s[|s| - 1].sn > x.sn {
      var n := |s| - 1;
      assert s == s[..n] + [s[n]];
      InsertPermutes(s[..n], x);
    }
  }

  lemma {:induction false} SortPermutes(s: seq<Inst>)
    ensures multiset(Sort(s)) == multiset(s)
  {
    if s != [] {
      var n := |s| - 1;
      assert s == s[..n] + [s[n]];
      SortPermutes(s[..n]);
      InsertPermutes(Sort(s[..n]), s[n]);
    }
  }

  ghost predicate Sorted(s: seq<Inst>) {
    forall i, j :: 0 <= i < j < |s| ==> s[i].sn <= s[j].sn
  }

  lemma {:induction false} InsertMembers(s: seq<Inst>, x: Inst, y: Inst)
    ensures y in Insert(s, x) <==> y == x || y in s
  {
    InsertPermutes(s, x);
    assert y in Insert(s, x) <==> y in multiset(Insert(s, x));
    assert y in s <==> y in multiset(s);
  }

  lemma {:induction false} InsertSorted(s: seq<Inst>, x: Inst)
    requires Sorted(s)
    ensures Sorted(Insert(s, x))
  {
    if s != [] && s[|s| - 1].sn > x.sn {
      var n := |s| - 1;
      InsertSorted(s[..n], x);
      forall i | 0 <= i < n + 1
        ensures Insert(s[..n], x)[i].sn <= s[n].sn
      {
        InsertMembers(s[..n], x, Insert(s[..n], x)[i]);
      }
    }
  }

  lemma {:induction false} SortMembers(s: seq<Inst>, y: Inst)
    ensures y in Sort(s) <==> y in s
  {
    SortPermutes(s);
    assert y in Sort(s) <==> y in multiset(Sort(s));
    assert y in s <==> y in multiset(s);
  }

  lemma {:induction false} SortSorts(s: seq<Inst>)
    ensures Sorted(Sort(s))
  {
    if s != [] {
      SortSorts(s[..|s| - 1]);
      InsertSorted(Sort(s[..|s| - 1]), s[|s| - 1]);
    }
  }

  lemma {:induction false} SortOfSorted(s: seq<Inst>)
    requires Sorted(s)
    ensures Sort(s) == s
  {
    if s != [] {
      SortOfSorted(s[..|s| - 1]);
    }
  }

  // ----- How far out of order instructions arrive -----

  // Number of instructions with a larger sequence number.
  function Larger(s: seq<Inst>, sn: int): nat {
    if s == [] then 0 else Larger(s[..|s| - 1], sn) + if s[|s| - 1].sn > sn then 1 else 0
  }

  // No instruction arrives after more than `places` instructions that should follow it.
  ghost predicate Displaced(arrived: seq<Inst>, places: nat) {
    forall i :: 0 <= i < |arrived| ==> Larger(arrived[..i], arrived[i].sn) <= places
  }

  lemma {:induction false} LargerConcat(a: seq<Inst>, b: seq<Inst>, sn: int)
    ensures Larger(a + b, sn) == Larger(a, sn) + Larger(b, sn)
  {
    if b == [] {
      assert a + b == a;
    } else {
      assert (a + b)[..|a + b| - 1] == a + b[..|b| - 1];
      LargerConcat(a, b[..|b| - 1], sn);
    }
  }

  lemma {:induction false} LargerInsert(s: seq<Inst>, x: Inst, sn: int)
    ensures Larger(Insert(s, x), sn) == Larger(s, sn) + if x.sn > sn then 1 else 0
  {
    if s == [] || s[|s| - 1].sn <= x.sn {
      LargerConcat(s, [x], sn);
      LargerOne(x, sn);
    } else {
      LargerInsert(s[..|s| - 1], x, sn);
      LargerConcat(Insert(s[..|s| - 1], x), [s[|s| - 1]], sn);
      LargerOne(s[|s| - 1], sn);
    }
  }

  lemma {:induction false} LargerOne(x: Inst, sn: int)
    ensures Larger([x], sn) == if x.sn > sn then 1 else 0
  {
    assert [x][..0] == [];
  }

  lemma {:induction false} LargerSort(s: seq<Inst>, sn: int)
    ensures Larger(Sort(s), sn) == Larger(s, sn)
  {
    if s != [] {
      LargerSort(s[..|s| - 1], sn);
      LargerInsert(Sort(s[..|s| - 1]), s[|s| - 1], sn);
    }
  }

  lemma {:induction false} LargerAll(s: seq<Inst>, sn: int)
    requires forall x :: x in s ==> x.sn > sn
    ensures Larger(s, sn) == |s|
  {
    if s != [] {
      LargerAll(s[..|s| - 1], sn);
    }
  }

  // ----- The queue -----

  // Instructions waiting, and instructions taken from the queue so far.
  datatype Queue = Queue(waiting: seq<Inst>, popped: seq<Inst>)

  datatype Limits = Limits(max: nat, min: nat)

  function Flush(q: Queue, lower: nat): Queue {
    var s := Sort(q.waiting);
    var k := if |s| > lower then |s| - lower else 0;
    Queue(s[k..], q.popped + s[..k])
  }

  function Enqueue(q: Queue, x: Inst, lim: Limits): Queue {
    var q' := Queue(q.waiting + [x], q.popped);
    if |q'.waiting| > lim.max then Flush(q', lim.min) else q'
  }

  // The queue after these arrivals.
  function Run(arrived: seq<Inst>, lim: Limits): Queue {
    if arrived == [] then Queue([], [])
    else Enqueue(Run(arrived[..|arrived| - 1], lim), arrived[|arrived| - 1], lim)
  }

  // Nothing is lost or duplicated, and the queue stays within its limit.
  lemma {:induction false} RunConserves(arrived: seq<Inst>, lim: Limits)
    requires lim.min <= lim.max
    ensures var q := Run(arrived, lim);
            multiset(q.popped) + multiset(q.waiting) == multiset(arrived) && |q.waiting| <= lim.max
  {
    if arrived != [] {
      var init, x := arrived[..|arrived| - 1], arrived[|arrived| - 1];
      assert arrived == init + [x];
      RunConserves(init, lim);
      var q := Queue(Run(init, lim).waiting + [x], Run(init, lim).popped);
      FlushConserves(q, lim.min);
    }
  }

  lemma FlushConserves(q: Queue, lower: nat)
    ensures var f := Flush(q, lower);
            multiset(f.popped) + multiset(f.waiting) == multiset(q.popped) + multiset(q.waiting)
  {
    var s := Sort(q.waiting);
    var k := if |s| > lower then |s| - lower else 0;
    SortPermutes(q.waiting);
    assert s == s[..k] + s[k..];
  }

  // ----- When the queue is flushed -----

  // The t-th arrival makes the queue too long.
  predicate FlushesAt(t: nat, lim: Limits)
    requires lim.min <= lim.max
  {
    t > lim.max && (t - lim.max - 1) % (lim.max + 1 - lim.min) == 0
  }

  // The last flush within n arrivals, 0 if there is none.
  function LastFlush(n: nat, lim: Limits): (t: nat)
    requires lim.min <= lim.max
    ensures t <= n && (n <= lim.max ==> t == 0)
  {
    if n <= lim.max then 0
    else
      ModBound(n - lim.max - 1, lim.max + 1 - lim.min);
      n - (n - lim.max - 1) % (lim.max + 1 - lim.min)
  }

  // How many instructions wait after n arrivals.
  function Waits(n: nat, lim: Limits): nat
    requires lim.min <= lim.max
  {
    if n <= lim.max then n else lim.min + (n - lim.max - 1) % (lim.max + 1 - lim.min)
  }

  lemma FlushStep(n: nat, lim: Limits)
    requires lim.min <= lim.max
    ensures FlushesAt(n + 1, lim) <==> Waits(n, lim) + 1 > lim.max
    ensures Waits(n + 1, lim) == if FlushesAt(n + 1, lim) then lim.min else Waits(n, lim) + 1
    ensures LastFlush(n + 1, lim) == if FlushesAt(n + 1, lim) then n + 1 else LastFlush(n, lim)
  {
    var d := lim.max + 1 - lim.min;
    if n > lim.max {
      ModSucc(n - lim.max - 1, d);
    } else if n == lim.max {
      ModSmall(0, d);
    }
  }

  lemma LastFlushIs(n: nat, lim: Limits)
    requires lim.min <= lim.max < n
    ensures FlushesAt(LastFlush(n, lim), lim)
  {
    var x, d := n - lim.max - 1, lim.max + 1 - lim.min;
    assert x - x % d == x / d * d;
    MulMod(x / d, d);
    ModBound(x, d);
  }

  lemma {:induction false} WaitingLength(arrived: seq<Inst>, lim: Limits)
    requires lim.min <= lim.max
    ensures |Run(arrived, lim).waiting| == Waits(|arrived|, lim)
  {
    hide Waits, FlushesAt, Sort;
    if arrived == [] {
      NoneWaits(lim);
    } else {
      WaitingLength(arrived[..|arrived| - 1], lim);
      FlushStep(|arrived| - 1, lim);
    }
  }

  lemma NoneWaits(lim: Limits)
    requires lim.min <= lim.max
    ensures Waits(0, lim) == 0
  {
  }

  // The queue after one more arrival.
  lemma RunStep(arrived: seq<Inst>, lim: Limits)
    requires lim.min <= lim.max && arrived != []
    ensures var init, x := arrived[..|arrived| - 1], arrived[|arrived| - 1];
            var q := Queue(Run(init, lim).waiting + [x], Run(init, lim).popped);
            (FlushesAt(|arrived|, lim) <==> |q.waiting| > lim.max) &&
            Run(arrived, lim) == if FlushesAt(|arrived|, lim) then Flush(q, lim.min) else q
  {
    hide Waits, FlushesAt, Flush;
    WaitingLength(arrived[..|arrived| - 1], lim);
    FlushStep(|arrived| - 1, lim);
  }

  // ----- Printing in order -----

  // No instruction that arrives after a flush belongs before what that flush prints.
  ghost predicate InTime(arrived: seq<Inst>, lim: Limits)
    requires lim.min <= lim.max
  {
    forall t: nat, i: nat :: FlushesAt(t, lim) && t <= i < |arrived| ==> Larger(arrived[..t], arrived[i].sn) <= lim.min
  }

  // What holds while instructions arrive in time, t being the last flush: popped instructions
  // are in order, nothing waiting belongs before them, and an instruction that belonged before
  // the last one popped would be too late.
  ghost predicate InStep(arrived: seq<Inst>, t: nat, q: Queue, lim: Limits) {
    t <= |arrived| && Sorted(q.popped) &&
    (forall x, y :: x in q.popped && y in q.waiting ==> x.sn <= y.sn) &&
    (forall sn :: Larger(arrived, sn) == Larger(q.popped, sn) + Larger(q.waiting, sn)) &&
    (q.popped != [] ==> forall sn :: sn < q.popped[|q.popped| - 1].sn ==> Larger(arrived[..t], sn) > lim.min)
  }

  lemma {:induction false} RunInStep(arrived: seq<Inst>, lim: Limits)
    requires lim.min <= lim.max && InTime(arrived, lim)
    ensures InStep(arrived, LastFlush(|arrived|, lim), Run(arrived, lim), lim)
  {
    hide FlushesAt, LastFlush, Waits, InStep, Flush;
    if arrived == [] {
      NothingInStep(lim);
    } else {
      var n := |arrived| - 1;
      var init, x := arrived[..n], arrived[n];
      assert arrived == init + [x];
      InTimeInit(arrived, lim);
      RunInStep(init, lim);
      var q, t := Run(init, lim), LastFlush(n, lim);
      FlushStep(n, lim);
      RunStep(arrived, lim);
      PoppedAfterFlush(init, lim);
      if q.popped != [] {
        LastInTime(arrived, lim);
      }
      ArrivalInStep(init, t, q, x, lim);
      if FlushesAt(n + 1, lim) {
        FlushInStep(arrived, t, Queue(q.waiting + [x], q.popped), lim);
      }
    }
  }

  lemma NothingInStep(lim: Limits)
    requires lim.min <= lim.max
    ensures InStep([], LastFlush(0, lim), Queue([], []), lim)
  {
  }

  lemma {:induction false} PoppedAfterFlush(arrived: seq<Inst>, lim: Limits)
    requires lim.min <= lim.max
    ensures Run(arrived, lim).popped != [] ==> |arrived| > lim.max
  {
    if |arrived| <= lim.max {
      RunCollects(arrived, lim);
    }
  }

  lemma InTimeInit(arrived: seq<Inst>, lim: Limits)
    requires lim.min <= lim.max && InTime(arrived, lim) && arrived != []
    ensures InTime(arrived[..|arrived| - 1], lim)
  {
    hide FlushesAt;
    var init := arrived[..|arrived| - 1];
    forall t: nat, i: nat | FlushesAt(t, lim) && t <= i < |init|
      ensures Larger(init[..t], init[i].sn) <= lim.min
    {
      assert init[..t] == arrived[..t] && init[i] == arrived[i];
    }
  }

  lemma LastInTime(arrived: seq<Inst>, lim: Limits)
    requires lim.min <= lim.max && InTime(arrived, lim) && |arrived| > lim.max + 1
    ensures var n := |arrived| - 1; Larger(arrived[..n][..LastFlush(n, lim)], arrived[n].sn) <= lim.min
  {
    hide FlushesAt;
    var n := |arrived| - 1;
    LastFlushIs(n, lim);
    assert arrived[..n][..LastFlush(n, lim)] == arrived[..LastFlush(n, lim)];
  }

  lemma ArrivalInStep(arrived: seq<Inst>, t: nat, q: Queue, x: Inst, lim: Limits)
    requires InStep(arrived, t, q, lim) && (q.popped != [] ==> Larger(arrived[..t], x.sn) <= lim.min)
    ensures InStep(arrived + [x], t, Queue(q.waiting + [x], q.popped), lim)
  {
    hide Larger, Sorted;
    var more, w := arrived + [x], q.waiting + [x];
    forall sn
      ensures Larger(more, sn) == Larger(q.popped, sn) + Larger(w, sn)
    {
      LargerConcat(arrived, [x], sn);
      LargerConcat(q.waiting, [x], sn);
    }
    assert more[..t] == arrived[..t];
    forall y, z | y in q.popped && z in w
      ensures y.sn <= z.sn
    {
      LastIsLargest(q.popped, y);
      assert z == x || z in q.waiting;
    }
  }

  lemma LastIsLargest(s: seq<Inst>, y: Inst)
    requires Sorted(s) && y in s
    ensures y.sn <= s[|s| - 1].sn
  {
  }

  // Taking the first k of the sorted queue keeps everything popped in order and in front.
  lemma FlushOrders(q: Queue, k: nat)
    requires Sorted(q.popped) && (forall x, y :: x in q.popped && y in q.waiting ==> x.sn <= y.sn)
    requires k <= |q.waiting|
    ensures var s := Sort(q.waiting);
            Sorted(q.popped + s[..k]) && forall x, y :: x in q.popped + s[..k] && y in s[k..] ==> x.sn <= y.sn
  {
    var s := Sort(q.waiting);
    SortSorts(q.waiting);
    forall y | y in s
      ensures y in q.waiting
    {
      SortMembers(q.waiting, y);
    }
    forall x, y | x in s[..k] && y in s[k..]
      ensures x.sn <= y.sn
    {
      var i :| 0 <= i < k && s[i] == x;
      var j :| 0 <= j < |s| - k && s[k..][j] == y;
      assert s[k + j] == y;
    }
  }

  lemma {:induction false} FlushCounts(q: Queue, k: nat, sn: int)
    requires k <= |q.waiting|
    ensures var s := Sort(q.waiting);
            Larger(q.popped + s[..k], sn) + Larger(s[k..], sn) == Larger(q.popped, sn) + Larger(q.waiting, sn)
  {
    var s := Sort(q.waiting);
    LargerSort(q.waiting, sn);
    assert s == s[..k] + s[k..];
    LargerConcat(s[..k], s[k..], sn);
    LargerConcat(q.popped, s[..k], sn);
  }

  // Below the last instruction popped lie it and everything left waiting.
  lemma {:induction false} FlushedBelow(q: Queue, k: nat, sn: int)
    requires 0 < k <= |q.waiting| && sn < Sort(q.waiting)[k - 1].sn
    ensures Larger(q.popped, sn) + Larger(q.waiting, sn) > |q.waiting| - k
  {
    hide Sort, Larger;
    var s := Sort(q.waiting);
    SortSorts(q.waiting);
    LargerSort(q.waiting, sn);
    assert s == s[..k - 1] + s[k - 1..];
    LargerConcat(s[..k - 1], s[k - 1..], sn);
    TailAbove(s, k - 1, sn);
  }

  lemma {:induction false} TailAbove(s: seq<Inst>, k: nat, sn: int)
    requires Sorted(s) && k < |s| && sn < s[k].sn
    ensures Larger(s[k..], sn) == |s| - k
  {
    hide Larger;
    forall x | x in s[k..]
      ensures x.sn > sn
    {
      var j :| 0 <= j < |s| - k && s[k..][j] == x;
      assert s[k + j] == x;
    }
    LargerAll(s[k..], sn);
  }

  lemma FlushInStep(arrived: seq<Inst>, t: nat, q: Queue, lim: Limits)
    requires InStep(arrived, t, q, lim) && |q.waiting| > lim.min
    ensures InStep(arrived, |arrived|, Flush(q, lim.min), lim)
  {
    hide Larger;
    var s := Sort(q.waiting);
    var k := |s| - lim.min;
    var f := Flush(q, lim.min);
    FlushOrders(q, k);
    forall sn
      ensures Larger(arrived, sn) == Larger(f.popped, sn) + Larger(f.waiting, sn)
    {
      FlushCounts(q, k, sn);
    }
    assert f.popped[|f.popped| - 1] == s[k - 1];
    assert arrived[..|arrived|] == arrived;
    forall sn | sn < s[k - 1].sn
      ensures Larger(arrived, sn) > lim.min
    {
      FlushedBelow(q, k, sn);
    }
  }

  // Printing everything at the end of the region of interest.
  function Print(arrived: seq<Inst>, lim: Limits): seq<Inst> {
    Flush(Run(arrived, lim), 0).popped
  }

  // ----- The exact condition -----

  lemma {:induction false} FlushedCounts(q: Queue, lower: nat, sn: int)
    ensures var f := Flush(q, lower); Larger(f.popped, sn) + Larger(f.waiting, sn) == Larger(q.popped, sn) + Larger(q.waiting, sn)
  {
    hide Larger, Sort;
    FlushCounts(q, if |q.waiting| > lower then |q.waiting| - lower else 0, sn);
  }

  lemma {:induction false} RunCounts(arrived: seq<Inst>, lim: Limits, sn: int)
    ensures var q := Run(arrived, lim); Larger(arrived, sn) == Larger(q.popped, sn) + Larger(q.waiting, sn)
  {
    hide Sort, Flush;
    if arrived != [] {
      hide Larger;
      var init, x := arrived[..|arrived| - 1], arrived[|arrived| - 1];
      assert arrived == init + [x];
      RunCounts(init, lim, sn);
      LargerConcat(init, [x], sn);
      LargerConcat(Run(init, lim).waiting, [x], sn);
      var q := Queue(Run(init, lim).waiting + [x], Run(init, lim).popped);
      FlushedCounts(q, lim.min, sn);
    }
  }

  lemma {:induction false} LargerBound(s: seq<Inst>, sn: int)
    ensures Larger(s, sn) <= |s|
    ensures Larger(s, sn) > 0 ==> exists y :: y in s && y.sn > sn
  {
    if s != [] {
      LargerBound(s[..|s| - 1], sn);
      assert s == s[..|s| - 1] + [s[|s| - 1]];
    }
  }

  // What has been popped stays at the front of the output.
  lemma {:induction false} PoppedPrefix(arrived: seq<Inst>, t: nat, lim: Limits)
    requires t <= |arrived|
    ensures Run(arrived[..t], lim).popped <= Run(arrived, lim).popped
  {
    if t == |arrived| {
      assert arrived[..t] == arrived;
    } else {
      PoppedPrefix(arrived[..|arrived| - 1], t, lim);
      assert arrived[..|arrived| - 1][..t] == arrived[..t];
    }
  }

  lemma {:induction false} FlushLeaves(arrived: seq<Inst>, lim: Limits)
    requires lim.min <= lim.max && FlushesAt(|arrived|, lim)
    ensures |Run(arrived, lim).waiting| == lim.min
  {
    WaitingLength(arrived, lim);
  }

  // An instruction that arrives after a flush and belongs before more than min_threshold of
  // those that came before the flush is printed out of order.
  lemma LatePrinted(arrived: seq<Inst>, lim: Limits, t: nat, i: nat)
    requires lim.min <= lim.max && FlushesAt(t, lim) && t <= i < |arrived|
    requires Larger(arrived[..t], arrived[i].sn) > lim.min
    ensures !Sorted(Print(arrived, lim))
  {
    hide Run, Sort, FlushesAt;
    var sn := arrived[i].sn;
    var q, out := Run(arrived[..t], lim), Print(arrived, lim);
    FlushLeaves(arrived[..t], lim);
    RunCounts(arrived[..t], lim, sn);
    LargerBound(q.waiting, sn);
    LargerBound(q.popped, sn);
    var y :| y in q.popped && y.sn > sn;
    PoppedPrefix(arrived, t, lim);
    assert q.popped <= out;
    RestPrinted(arrived, lim, t, i);
    var j :| |q.popped| <= j < |out| && out[j] == arrived[i];
    var k :| 0 <= k < |q.popped| && q.popped[k] == y;
    assert out[k] == y;
  }

  lemma {:induction false} RestPrinted(arrived: seq<Inst>, lim: Limits, t: nat, i: nat)
    requires lim.min <= lim.max && t <= i < |arrived| && Run(arrived[..t], lim).popped <= Print(arrived, lim)
    ensures exists j :: |Run(arrived[..t], lim).popped| <= j < |Print(arrived, lim)| && Print(arrived, lim)[j] == arrived[i]
  {
    hide Run, Print;
    var q, out := Run(arrived[..t], lim), Print(arrived, lim);
    var n := |q.popped|;
    RunConserves(arrived[..t], lim);
    AllPrinted(arrived, lim);
    SplitMultiset(out, n);
    SplitMultiset(arrived, t);
    assert out[..n] == q.popped;
    Cancel(multiset(q.popped), multiset(out[n..]), multiset(q.waiting), multiset(arrived[t..]));
    assert arrived[t..][i - t] == arrived[i];
    Located(out, n, arrived[i]);
  }

  lemma SplitMultiset<T>(s: seq<T>, n: nat)
    requires n <= |s|
    ensures multiset(s) == multiset(s[..n]) + multiset(s[n..])
  {
    assert s == s[..n] + s[n..];
  }

  lemma Cancel<T>(p: multiset<T>, r: multiset<T>, w: multiset<T>, late: multiset<T>)
    requires p + r == (p + w) + late
    ensures r == w + late
  {
    assert r == (p + r) - p;
    assert w + late == (p + w) + late - p;
  }

  lemma Located<T>(s: seq<T>, n: nat, x: T)
    requires n <= |s| && x in multiset(s[n..])
    ensures exists j :: n <= j < |s| && s[j] == x
  {
    var k :| 0 <= k < |s| - n && s[n..][k] == x;
    assert s[n + k] == x;
  }

  // The output is in order exactly when every instruction arrives in time for every flush
  // before it.
  lemma PrintedInOrderIff(arrived: seq<Inst>, lim: Limits)
    requires lim.min <= lim.max
    ensures Sorted(Print(arrived, lim)) <==> InTime(arrived, lim)
  {
    hide Run, FlushesAt, LastFlush, Sort;
    if InTime(arrived, lim) {
      RunInStep(arrived, lim);
      var q := Run(arrived, lim);
      FlushOrders(q, |q.waiting|);
    } else {
      var t: nat, i: nat :| FlushesAt(t, lim) && t <= i < |arrived| && Larger(arrived[..t], arrived[i].sn) > lim.min;
      LatePrinted(arrived, lim, t, i);
    }
  }

  // Instructions that are at most min_threshold places out of order come out in order.
  lemma PrintedInOrder(arrived: seq<Inst>, lim: Limits)
    requires lim.min <= lim.max && Displaced(arrived, lim.min)
    ensures Sorted(Print(arrived, lim))
  {
    hide Print, FlushesAt;
    forall t: nat, i: nat | FlushesAt(t, lim) && t <= i < |arrived|
      ensures Larger(arrived[..t], arrived[i].sn) <= lim.min
    {
      assert arrived[..i] == arrived[..t] + arrived[t..i];
      LargerConcat(arrived[..t], arrived[t..i], arrived[i].sn);
    }
    PrintedInOrderIff(arrived, lim);
  }

  // The converse is not true: between two flushes any disorder is put right.
  lemma LateYetInOrder(lim: Limits) returns (arrived: seq<Inst>)
    requires lim.min < lim.max
    ensures !Displaced(arrived, lim.min) && Sorted(Print(arrived, lim))
  {
    hide Print;
    var late := seq(lim.min + 1, _ => Inst(1, 0, 0, ""));
    arrived := late + [Inst(0, 0, 0, "")];
    LargerAll(late, 0);
    assert arrived[..lim.min + 1] == late;
    PrintedInOrderIff(arrived, lim);
  }

  // Only with equal thresholds, where every further arrival is a flush, it is.
  lemma EqualThresholds(arrived: seq<Inst>, lim: Limits)
    requires lim.min == lim.max
    ensures Sorted(Print(arrived, lim)) <==> Displaced(arrived, lim.min)
  {
    hide Print;
    PrintedInOrderIff(arrived, lim);
    if Displaced(arrived, lim.min) {
      PrintedInOrder(arrived, lim);
    } else {
      var i :| 0 <= i < |arrived| && Larger(arrived[..i], arrived[i].sn) > lim.min;
      LargerBound(arrived[..i], arrived[i].sn);
      assert FlushesAt(i, lim);
    }
  }

  // ----- What is left when the trace ends -----

  function Last<T>(s: seq<T>, m: nat): seq<T> {
    if m <= |s| then s[|s| - m..] else s
  }

  lemma {:induction false} InsertTop(s: seq<Inst>, x: Inst, m: nat)
    requires m <= |s|
    ensures Last(Insert(s, x), m) == Last(Insert(Last(s, m), x), m)
    decreases |s|
  {
    if m == 0 {
      assert Last(Insert(s, x), 0) == [] == Last(Insert(Last(s, 0), x), 0);
    } else {
      hide Last, Insert;
      var n := |s| - 1;
      var w := Last(s, m);
      LastFront(s, m);
      InsertLast(s, x);
      InsertLast(w, x);
      if s[n].sn <= x.sn {
        LastBehind(s, x, m);
      } else {
        InsertTop(s[..n], x, m - 1);
        LastSnoc(Insert(s[..n], x), s[n], m);
        LastSnoc(Insert(w[..m - 1], x), s[n], m);
      }
    }
  }

  lemma InsertLast(s: seq<Inst>, x: Inst)
    requires s != []
    ensures var n := |s| - 1; Insert(s, x) == if s[n].sn <= x.sn then s + [x] else Insert(s[..n], x) + [s[n]]
  {
  }

  lemma LastFront<T>(s: seq<T>, m: nat)
    requires 0 < m <= |s|
    ensures var w, n := Last(s, m), |s| - 1; |w| == m && w[m - 1] == s[n] && w[..m - 1] == Last(s[..n], m - 1)
  {
  }

  lemma LastBehind<T>(s: seq<T>, x: T, m: nat)
    requires m <= |s|
    ensures Last(s + [x], m) == Last(Last(s, m) + [x], m)
  {
  }

  lemma LastSnoc<T>(s: seq<T>, x: T, m: nat)
    requires 0 < m <= |s| + 1
    ensures Last(s + [x], m) == Last(s, m - 1) + [x]
  {
  }

  lemma {:induction false} SortTop(a: seq<Inst>, b: seq<Inst>, m: nat)
    requires m <= |a|
    ensures Last(Sort(a + b), m) == Last(Sort(Last(Sort(a), m) + b), m)
    decreases |b|
  {
    var w := Last(Sort(a), m);
    if b == [] {
      assert a + b == a && w + b == w;
      SortSorts(a);
      SortOfSorted(w);
    } else {
      var n := |b| - 1;
      SortTop(a, b[..n], m);
      assert (a + b)[..|a + b| - 1] == a + b[..n] && (w + b)[..|w + b| - 1] == w + b[..n];
      InsertTop(Sort(a + b[..n]), b[n], m);
      InsertTop(Sort(w + b[..n]), b[n], m);
    }
  }

  // What waits, and is never printed if the trace simply ends, are the min_threshold largest
  // of the instructions up to the last flush, and all that came after it.
  lemma {:induction false} LeftAtEnd(arrived: seq<Inst>, lim: Limits)
    requires lim.min <= lim.max
    ensures var t := LastFlush(|arrived|, lim);
            Run(arrived, lim).waiting == Last(Sort(arrived[..t]), lim.min) + arrived[t..]
  {
    hide FlushesAt, LastFlush, Sort, Last, Waits;
    var n := |arrived| - 1;
    if arrived == [] {
      assert LastFlush(0, lim) == 0;
      NothingLast(lim.min);
    } else {
      var init, x := arrived[..n], arrived[n];
      var t, w := LastFlush(n, lim), Run(init, lim).waiting;
      LeftAtEnd(init, lim);
      FlushStep(n, lim);
      RunStep(arrived, lim);
      assert init[..t] == arrived[..t] && init[t..] + [x] == arrived[t..];
      var old_ := Last(Sort(arrived[..t]), lim.min);
      assert w + [x] == old_ + arrived[t..];
      if FlushesAt(n + 1, lim) {
        FlushTop(arrived, t, w + [x], lim);
      }
    }
  }

  lemma NothingLast(m: nat)
    ensures Last(Sort([]), m) + [] == []
  {
  }

  lemma FlushTop(arrived: seq<Inst>, t: nat, w: seq<Inst>, lim: Limits)
    requires t <= |arrived| && |w| > lim.max >= lim.min && w == Last(Sort(arrived[..t]), lim.min) + arrived[t..]
    ensures Flush(Queue(w, []), lim.min).waiting == Last(Sort(arrived[..|arrived|]), lim.min) + arrived[|arrived|..]
  {
    hide Sort;
    assert arrived == arrived[..t] + arrived[t..] && arrived[..|arrived|] == arrived && arrived[|arrived|..] == [];
    if lim.min <= t {
      SortTop(arrived[..t], arrived[t..], lim.min);
    } else {
      SortSorted(arrived[..t], arrived[t..]);
    }
  }

  lemma {:induction false} SortSorted(a: seq<Inst>, b: seq<Inst>)
    ensures Sort(Sort(a) + b) == Sort(a + b)
    decreases |b|
  {
    if b == [] {
      assert Sort(a) + b == Sort(a) && a + b == a;
      SortSorts(a);
      SortOfSorted(Sort(a));
    } else {
      var n := |b| - 1;
      SortSorted(a, b[..n]);
      assert (Sort(a) + b)[..|Sort(a) + b| - 1] == Sort(a) + b[..n];
      assert (a + b)[..|a + b| - 1] == a + b[..n];
    }
  }

  lemma {:induction false} LargerNone(s: seq<Inst>, sn: int)
    requires forall x :: x in s ==> x.sn <= sn
    ensures Larger(s, sn) == 0
  {
    if s != [] {
      LargerNone(s[..|s| - 1], sn);
    }
  }

  // Up to the limit the queue only collects.
  lemma {:induction false} RunCollects(arrived: seq<Inst>, lim: Limits)
    requires |arrived| <= lim.max
    ensures Run(arrived, lim) == Queue(arrived, [])
  {
    if arrived != [] {
      RunCollects(arrived[..|arrived| - 1], lim);
      assert arrived[..|arrived| - 1] + [arrived[|arrived| - 1]] == arrived;
    }
  }

  // Emptying the queue prints every instruction, as often as it arrived.
  lemma AllPrinted(arrived: seq<Inst>, lim: Limits)
    requires lim.min <= lim.max
    ensures multiset(Print(arrived, lim)) == multiset(arrived)
  {
    hide Run, Sort;
    RunConserves(arrived, lim);
    FlushConserves(Run(arrived, lim), 0);
    assert Flush(Run(arrived, lim), 0).waiting == [];
  }

  // A late arrival after sorted ones is displaced by the number of larger ones.
  lemma {:induction false} SortedThenLate(base: seq<Inst>, x: Inst, places: nat)
    requires Sorted(base) && Larger(base, x.sn) <= places
    ensures Displaced(base + [x], places)
  {
    var arrived := base + [x];
    forall i | 0 <= i < |arrived|
      ensures Larger(arrived[..i], arrived[i].sn) <= places
    {
      if i < |base| {
        assert arrived[..i] == base[..i];
        LargerNone(base[..i], base[i].sn);
      } else {
        assert arrived[..i] == base;
      }
    }
  }

  // One place more is too much: for all thresholds there are arrivals that are at most
  // min_threshold + 1 places out of order and are printed out of order.
  lemma OnePlaceTooMany(lim: Limits) returns (arrived: seq<Inst>)
    requires lim.min <= lim.max
    ensures Displaced(arrived, lim.min + 1) && !Sorted(Print(arrived, lim))
  {
    hide Run, Larger, Print, Displaced, Sorted;
    var early, late, x := Inst(0, 0, 0, ""), Inst(2, 0, 0, ""), Inst(1, 0, 0, "");
    var a, b := seq(lim.max - lim.min, _ => early), seq(lim.min + 1, _ => late);
    LargerConcat(a, b, 1);
    LargerNone(a, 1);
    LargerAll(b, 1);
    TwoLevels(a, b);
    SortedThenLate(a + b, x, lim.min + 1);
    arrived := a + b + [x];
    assert arrived[..lim.max + 1] == a + b;
    ModSmall(0, lim.max + 1 - lim.min);
    LatePrinted(arrived, lim, lim.max + 1, lim.max + 1);
  }

  lemma TwoLevels(a: seq<Inst>, b: seq<Inst>)
    requires (forall x :: x in a ==> x.sn == 0) && forall x :: x in b ==> x.sn == 2
    ensures Sorted(a + b)
  {
  }

  // ----- The viewer -----

  // The window of interest; a bound of 0 is no bound.
  datatype Window = Window(snStart: int, snStop: int, tickStart: int, tickStop: int, onlyCommitted: bool) {
    predicate Shows(x: Inst) {
      !(snStart > 0 && x.sn < snStart) && !(snStop > 0 && x.sn > snStop) &&
      !(tickStart > 0 && x.fetch < tickStart) && !(tickStop > 0 && x.fetch > tickStop) &&
      !(onlyCommitted && x.retire == 0)
    }
  }

  function Shown(s: seq<Inst>, w: Window): seq<Inst> {
    if s == [] then []
    else Shown(s[..|s| - 1], w) + if w.Shows(s[|s| - 1]) then [s[|s| - 1]] else []
  }

  class Viewer {
    var queue: seq<Inst>
    var output: seq<Inst>
    const lim: Limits
    const window: Window
    // Everything queued and everything popped so far.
    ghost var arrived: seq<Inst>
    ghost var popped: seq<Inst>

    // The state is what the arrivals determine, and the output what the window shows of it.
    ghost predicate Valid()
      reads this
    {
      lim.min <= lim.max && Run(arrived, lim) == Queue(queue, popped) && output == Shown(popped, window)
    }

    constructor (lim: Limits, window: Window)
      requires lim.min <= lim.max
      ensures Valid() && arrived == []
    {
      this.lim, this.window := lim, window;
      queue, output, arrived, popped := [], [], [], [];
    }

    method QueueInst(inst: Inst)
      requires Valid()
      modifies this
      ensures Valid() && arrived == old(arrived) + [inst] && |queue| <= lim.max
    {
      RunConserves(arrived + [inst], lim);
      assert (arrived + [inst])[..|arrived|] == arrived;
      arrived := arrived + [inst];
      queue := queue + [inst];
      if |queue| > lim.max {
        PrintInsts(lim.min);
      }
    }

    method PrintInsts(lower: nat)
      requires output == Shown(popped, window)
      modifies this`queue, this`output, this`popped
      ensures Queue(queue, popped) == Flush(Queue(old(queue), old(popped)), lower)
      ensures output == Shown(popped, window)
    {
      hide Sort, Shown;
      ghost var popped0 := popped;
      queue := Sort(queue);
      ghost var s, k := queue, 0;
      assert s[0..] == s && popped0 + s[..0] == popped0;
      while |queue| > lower
        invariant 0 <= k <= |s| && queue == s[k..] && popped == popped0 + s[..k]
        invariant k == 0 || |queue| >= lower
        invariant output == Shown(popped, window)
        decreases |queue|
      {
        var item := queue[0];
        queue := queue[1..];
        ShownAppend(popped, item, window);
        popped := popped + [item];
        assert popped == popped0 + s[..k + 1];
        k := k + 1;
        if window.Shows(item) {
          output := output + [item];
        }
      }
    }
  }

  // Within the bounds, of which 0 is none, and committed if only those are wanted.
  predicate Within(w: Window, x: Inst) {
    && (w.snStart <= 0 || w.snStart <= x.sn) && (w.snStop <= 0 || x.sn <= w.snStop)
    && (w.tickStart <= 0 || w.tickStart <= x.fetch) && (w.tickStop <= 0 || x.fetch <= w.tickStop)
    && (w.onlyCommitted ==> x.retire != 0)
  }

  // What is shown are the instructions within the bounds, each once and in the order given.
  lemma {:induction false} ShownExactly(s: seq<Inst>, w: Window) returns (ps: seq<nat>)
    ensures |ps| == |Shown(s, w)| && forall k :: 0 <= k < |ps| ==> ps[k] < |s| && Shown(s, w)[k] == s[ps[k]]
    ensures forall j, k :: 0 <= j < k < |ps| ==> ps[j] < ps[k]
    ensures forall i :: 0 <= i < |s| ==> (Within(w, s[i]) <==> i in ps)
  {
    ps := [];
    if s != [] {
      var n := |s| - 1;
      ps := ShownExactly(s[..n], w);
      forall i | 0 <= i < n
        ensures Within(w, s[i]) <==> i in ps
      {
        assert s[..n][i] == s[i];
      }
      if w.Shows(s[n]) {
        ps := ps + [n];
      }
    }
  }

  lemma {:induction false} ShownAppend(s: seq<Inst>, x: Inst, w: Window)
    ensures Shown(s + [x], w) == Shown(s, w) + if w.Shows(x) then [x] else []
  {
    assert (s + [x])[..|s|] == s;
  }
}
