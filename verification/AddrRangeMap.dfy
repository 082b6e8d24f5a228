/**
 The address map: ranges in an ordered tree keyed by their start, looked up through the entry
 before the first one that starts later.
 */
module AddrRangeMap {

  // Both ends belong to the range.
  datatype AddrRange = AddrRange(start: nat, end: nat)

  datatype Entry<V> = Entry(range: AddrRange, value: V)

  predicate Overlap(a: AddrRange, b: AddrRange) {
    a.start <= b.end && a.end >= b.start
  }

  // Two ranges overlap exactly if some address is in both.
  lemma OverlapMeans(a: AddrRange, b: AddrRange)
    requires a.start <= a.end && b.start <= b.end
    ensures Overlap(a, b) <==> exists x :: Covers(a, x) && Covers(b, x)
  {
    if Overlap(a, b) {
      var x := if a.start < b.start then b.start else a.start;
      assert Covers(a, x) && Covers(b, x);
    }
  }

  predicate Covers(r: AddrRange, x: nat) {
    r.start <= x <= r.end
  }

  // The entries of the tree in order: keys are distinct.
  ghost predicate Ascending<V>(tree: seq<Entry<V>>) {
    forall i, j :: 0 <= i < j < |tree| ==> tree[i].range.start < tree[j].range.start
  }

  // In addition, no range is empty.
  ghost predicate Ordered<V>(tree: seq<Entry<V>>) {
    (forall i :: 0 <= i < |tree| ==> tree[i].range.start <= tree[i].range.end) && Ascending(tree)
  }

  ghost predicate Disjoint<V>(tree: seq<Entry<V>>) {
    forall i, j :: 0 <= i < j < |tree| ==> !Overlap(tree[i].range, tree[j].range)
  }

  // The first entry that starts after a.
  function UpperBound<V>(tree: seq<Entry<V>>, a: nat): (i: nat)
    ensures i <= |tree|
    ensures forall j :: 0 <= j < i ==> tree[j].range.start <= a
    ensures i < |tree| ==> tree[i].range.start > a
  {
    if tree == [] || tree[0].range.start > a then 0 else 1 + UpperBound(tree[1..], a)
  }

  // Position of an entry that overlaps r, or |tree|.  With an empty tree what is read behind
  // the end does not matter.
  function Find<V>(tree: seq<Entry<V>>, r: AddrRange): (k: nat)
    ensures k <= |tree|
    ensures k < |tree| ==> Overlap(tree[k].range, r)
  {
    var i := UpperBound(tree, r.start);
    if i == 0 then
      if tree != [] && Overlap(tree[0].range, r) then 0 else |tree|
    else if Overlap(tree[i - 1].range, r) then i - 1
    else |tree|
  }

  function RangeSize(start: nat, size: nat): AddrRange
    requires size > 0
  {
    AddrRange(start, start + size - 1)
  }

  // ----- Point lookup -----

  // Looking up an address is the same as searching all ranges for it.
  lemma FindAddress<V>(tree: seq<Entry<V>>, a: nat)
    requires Ordered(tree) && Disjoint(tree)
    ensures var k := Find(tree, RangeSize(a, 1));
            forall j :: 0 <= j < |tree| ==> (tree[j].range.start <= a <= tree[j].range.end <==> j == k)
  {
    var r := RangeSize(a, 1);
    var i := UpperBound(tree, a);
    forall j | 0 <= j < |tree| && Overlap(tree[j].range, r)
      ensures j == i - 1
    {
      assert j + 1 < i ==> !Overlap(tree[j].range, tree[i - 1].range);
    }
    assert forall j :: 0 <= j < |tree| ==> (tree[j].range.start <= a <= tree[j].range.end <==> Overlap(tree[j].range, r));
  }

  // ----- Ranges -----

  // The entry before r, if any, already overlaps it, or no later entry starts inside r.
  predicate Safe<V>(tree: seq<Entry<V>>, r: AddrRange) {
    var i := UpperBound(tree, r.start);
    i == 0 || i == |tree| || Overlap(tree[i - 1].range, r) || tree[i].range.start > r.end
  }

  // A range lookup misses an overlap exactly when the entry before the range does not reach it
  // and a later one starts inside it.
  lemma FindMisses<V>(tree: seq<Entry<V>>, r: AddrRange)
    requires Ordered(tree) && Disjoint(tree)
    ensures (Find(tree, r) == |tree| && exists j :: 0 <= j < |tree| && Overlap(tree[j].range, r)) <==> !Safe(tree, r)
  {
    var i := UpperBound(tree, r.start);
    if !Safe(tree, r) {
      assert Overlap(tree[i].range, r);
    } else if Find(tree, r) == |tree| {
      forall j | 0 <= j < |tree|
        ensures !Overlap(tree[j].range, r)
      {
        if j + 1 < i {
          assert !Overlap(tree[j].range, tree[i - 1].range);
        } else if j >= i {
          assert j == i || tree[i].range.start < tree[j].range.start;
        }
      }
    }
  }

  function Place<T>(s: seq<T>, i: nat, x: T): (t: seq<T>)
    requires i <= |s|
    ensures |t| == |s| + 1 && t[i] == x
  {
    s[..i] + [x] + s[i..]
  }

  lemma PlaceParts<T>(s: seq<T>, i: nat, x: T)
    requires i <= |s|
    ensures Place(s, i, x)[..i] + Place(s, i, x)[i + 1..] == s
  {
  }

  lemma PlaceAt<T>(s: seq<T>, i: nat, x: T, j: nat)
    requires i <= |s| && j <= |s| && i != j
    ensures Place(s, i, x)[j] == s[if j < i then j else j - 1]
  {
  }

  // The tree after an insertion at the position of its key.
  function Inserted<V>(tree: seq<Entry<V>>, r: AddrRange, v: V): (t: seq<Entry<V>>) {
    var i := UpperBound(tree, r.start);
    if i > 0 && tree[i - 1].range.start == r.start then tree
    else Place(tree, i, Entry(r, v))
  }

  lemma {:induction false} InsertedOrdered<V>(tree: seq<Entry<V>>, r: AddrRange, v: V)
    requires Ordered(tree) && r.start <= r.end && Find(tree, r) == |tree|
    ensures Inserted(tree, r, v) == Place(tree, UpperBound(tree, r.start), Entry(r, v))
    ensures Ordered(Inserted(tree, r, v))
  {
    hide UpperBound, Place, Ascending;
    var i := UpperBound(tree, r.start);
    assert i > 0 ==> !Overlap(tree[i - 1].range, r);
    PlacedAscending(tree, i, Entry(r, v));
    var t := Place(tree, i, Entry(r, v));
    forall j | 0 <= j < |t|
      ensures t[j].range.start <= t[j].range.end
    {
      if j != i {
        PlaceAt(tree, i, Entry(r, v), j);
      }
    }
  }

  lemma PlacedAscending<V>(tree: seq<Entry<V>>, i: nat, e: Entry<V>)
    requires Ascending(tree) && i <= |tree|
    requires i > 0 ==> tree[i - 1].range.start < e.range.start
    requires i < |tree| ==> e.range.start < tree[i].range.start
    ensures Ascending(Place(tree, i, e))
  {
    hide Place;
    var t := Place(tree, i, e);
    forall a, b | 0 <= a < b < |t|
      ensures t[a].range.start < t[b].range.start
    {
      PlacedPair(tree, t, i, e, a, b);
    }
  }

  lemma PlacedPair<V>(tree: seq<Entry<V>>, t: seq<Entry<V>>, i: nat, e: Entry<V>, a: nat, b: nat)
    requires Ascending(tree) && i <= |tree| && t == Place(tree, i, e) && a < b < |t|
    requires i > 0 ==> tree[i - 1].range.start < e.range.start
    requires i < |tree| ==> e.range.start < tree[i].range.start
    ensures t[a].range.start < t[b].range.start
  {
    hide Place;
    if a != i {
      PlaceAt(tree, i, e, a);
    }
    if b != i {
      PlaceAt(tree, i, e, b);
    }
    if b == i {
      assert a == i - 1 || tree[a].range.start < tree[i - 1].range.start;
    } else if a == i {
      assert b == i + 1 || tree[i].range.start < tree[b - 1].range.start;
    } else {
      var x, y := if a < i then a else a - 1, if b < i then b else b - 1;
      assert t[a] == tree[x] && t[b] == tree[y] && x < y;
    }
  }

  // Inserting keeps the ranges disjoint exactly when the insertion is safe.
  lemma InsertedDisjoint<V>(tree: seq<Entry<V>>, r: AddrRange, v: V)
    requires Ordered(tree) && Disjoint(tree) && r.start <= r.end && Find(tree, r) == |tree|
    ensures Disjoint(Inserted(tree, r, v)) <==> Safe(tree, r)
  {
    hide UpperBound, Place, Inserted;
    var i := UpperBound(tree, r.start);
    InsertedOrdered(tree, r, v);
    FindMisses(tree, r);
    if Safe(tree, r) {
      PlacedDisjoint(tree, i, Entry(r, v));
    } else {
      var t := Place(tree, i, Entry(r, v));
      PlaceAt(tree, i, Entry(r, v), i + 1);
      assert Overlap(t[i].range, t[i + 1].range);
    }
  }

  lemma PlacedDisjoint<V>(tree: seq<Entry<V>>, i: nat, e: Entry<V>)
    requires Disjoint(tree) && i <= |tree| && forall j :: 0 <= j < |tree| ==> !Overlap(tree[j].range, e.range)
    ensures Disjoint(Place(tree, i, e))
  {
    hide Place;
    var t := Place(tree, i, e);
    assert t[i] == e;
    forall a, b | 0 <= a < b < |t|
      ensures !Overlap(t[a].range, t[b].range)
    {
      var x, y := if a < i then a else a - 1, if b < i then b else b - 1;
      if a != i {
        PlaceAt(tree, i, e, a);
      }
      if b != i {
        PlaceAt(tree, i, e, b);
      }
      assert 0 <= x < y < |tree| ==> !Overlap(tree[x].range, tree[y].range);
    }
  }

  // Where an address is found depends on the last entry that does not start after it.
  lemma {:induction false} BoundAt<V>(tree: seq<Entry<V>>, a: nat, i: nat)
    requires Ascending(tree) && i <= |tree|
    requires (i > 0 ==> tree[i - 1].range.start <= a) && (i < |tree| ==> tree[i].range.start > a)
    ensures UpperBound(tree, a) == i
  {
    hide UpperBound;
    var u := UpperBound(tree, a);
    assert forall j :: 0 <= j < i - 1 ==> tree[j].range.start < tree[i - 1].range.start;
  }

  // The entry that an address of the new range is compared with after the insertion.
  lemma {:induction false} InsertedBound<V>(tree: seq<Entry<V>>, r: AddrRange, v: V, a: nat)
    requires Ordered(tree) && r.start <= a <= r.end && Find(tree, r) == |tree|
    ensures var i, u, t := UpperBound(tree, r.start), UpperBound(tree, a), Inserted(tree, r, v);
            && |t| == |tree| + 1 && i <= u
            && (if i == |tree| || a < tree[i].range.start then UpperBound(t, a) == i + 1 && t[i].range == r
                else i < u && UpperBound(t, a) == u + 1 && t[u] == tree[u - 1])
  {
    hide UpperBound, Place, Inserted, Find;
    var i, u, e := UpperBound(tree, r.start), UpperBound(tree, a), Entry(r, v);
    InsertedOrdered(tree, r, v);
    assert forall j :: 0 <= j < i ==> tree[j].range.start <= r.start;
    hide Ordered;
    if i == |tree| || a < tree[i].range.start {
      if i < |tree| {
        PlaceAt(tree, i, e, i + 1);
      }
      BoundAt(Place(tree, i, e), a, i + 1);
    } else {
      PlaceAt(tree, i, e, u);
      if u < |tree| {
        PlaceAt(tree, i, e, u + 1);
      }
      BoundAt(Place(tree, i, e), a, u + 1);
    }
  }

  // After any insertion, the addresses of the new range up to the next start are found through
  // it; the others are looked up as if the range had not been inserted.
  lemma {:induction false} FoundThrough<V>(tree: seq<Entry<V>>, r: AddrRange, v: V, a: nat)
    requires Ordered(tree) && Disjoint(tree) && r.start <= a <= r.end && Find(tree, r) == |tree|
    ensures var i, k, t := UpperBound(tree, r.start), Find(tree, RangeSize(a, 1)), Inserted(tree, r, v);
            Find(t, RangeSize(a, 1)) ==
            if i == |tree| || a < tree[i].range.start then i else if k == |tree| then |t| else k + 1
  {
    hide UpperBound, Place, Inserted, Disjoint;
    InsertedBound(tree, r, v, a);
  }

  // Addresses of the new range are lost exactly if the insertion is not safe.
  lemma UnsafeInsert<V>(tree: seq<Entry<V>>, r: AddrRange, v: V)
    requires Ordered(tree) && Disjoint(tree) && r.start <= r.end && Find(tree, r) == |tree|
    ensures (exists a: nat :: Lost(tree, r, v, a)) <==> !Safe(tree, r)
  {
    hide UpperBound, Find, Inserted;
    var i := UpperBound(tree, r.start);
    InsertedOrdered(tree, r, v);
    forall a: nat | r.start <= a <= r.end
      ensures Lost(tree, r, v, a) <==> i < |tree| && tree[i].range.start <= a
    {
      FoundThrough(tree, r, v, a);
    }
    if !Safe(tree, r) {
      assert Lost(tree, r, v, tree[i].range.start);
    } else {
      NextStart(tree, r);
    }
  }

  // An address of the new range that is not found through it.
  ghost predicate Lost<V>(tree: seq<Entry<V>>, r: AddrRange, v: V, a: nat) {
    r.start <= a <= r.end && Find(Inserted(tree, r, v), RangeSize(a, 1)) != UpperBound(tree, r.start)
  }

  lemma {:induction false} NextStart<V>(tree: seq<Entry<V>>, r: AddrRange)
    requires Ordered(tree) && r.start <= r.end && Find(tree, r) == |tree| && Safe(tree, r)
    ensures var i := UpperBound(tree, r.start); i == |tree| || tree[i].range.start > r.end
  {
    hide UpperBound;
    var i := UpperBound(tree, r.start);
    assert i == 0 && tree != [] ==> !Overlap(tree[0].range, r);
  }

  lemma ErasedDisjoint<V>(tree: seq<Entry<V>>, k: nat)
    requires Ordered(tree) && k < |tree|
    ensures Ordered(tree[..k] + tree[k + 1..]) && (Disjoint(tree) ==> Disjoint(tree[..k] + tree[k + 1..]))
  {
    var t := tree[..k] + tree[k + 1..];
    assert forall j :: 0 <= j < |t| ==> t[j] == if j < k then tree[j] else tree[j + 1];
  }

  class RangeMap<V(==)> {
    var tree: seq<Entry<V>>

    ghost predicate Valid()
      reads this
    {
      Ordered(tree) && Disjoint(tree)
    }

    constructor ()
      ensures Valid() && tree == []
    {
      tree := [];
    }

    // The entry that holds an address.
    method FindAddr(a: nat) returns (k: nat)
      requires Valid()
      ensures k <= |tree|
      ensures forall j :: 0 <= j < |tree| ==> (tree[j].range.start <= a <= tree[j].range.end <==> j == k)
    {
      FindAddress(tree, a);
      k := Find(tree, RangeSize(a, 1));
    }

    method Intersect(r: AddrRange) returns (b: bool)
      requires Valid()
      ensures b ==> exists j :: 0 <= j < |tree| && Overlap(tree[j].range, r)
      ensures Safe(tree, r) ==> (b <==> exists j :: 0 <= j < |tree| && Overlap(tree[j].range, r))
    {
      FindMisses(tree, r);
      var i := Find(tree, r);
      b := i != |tree|;
    }

    // Adds the entry unless an overlap or its key is found, and keeps the ranges disjoint
    // whenever it can see every overlap.
    method Insert(r: AddrRange, v: V) returns (k: nat)
      requires Valid()
      modifies this
      ensures Ascending(tree) && (Valid() <==> tree == old(tree) || (r.start <= r.end && Safe(old(tree), r)))
      ensures Find(old(tree), r) < |old(tree)| ==> tree == old(tree) && k == |tree|
      ensures Find(old(tree), r) == |old(tree)| && HasKey(old(tree), r.start) ==>
                r.end < r.start && tree == old(tree) && k < |tree| && tree[k].range.start == r.start
      ensures Find(old(tree), r) == |old(tree)| && !HasKey(old(tree), r.start) ==>
                k < |tree| && tree[k] == Entry(r, v) && tree[..k] + tree[k + 1..] == old(tree)
    {
      hide Find, Ordered, Disjoint, Safe, HasKey, Ascending;
      InsertedCases(tree, r, v);
      if Find(tree, r) != |tree| {
        return |tree|;
      }
      k := UpperBound(tree, r.start);
      if k > 0 && tree[k - 1].range.start == r.start {
        return k - 1;
      }
      tree := Inserted(tree, r, v);
    }

    method Erase(k: nat)
      requires Valid() && k < |tree|
      modifies this
      ensures Valid() && tree == old(tree)[..k] + old(tree)[k + 1..]
    {
      ErasedDisjoint(tree, k);
      tree := tree[..k] + tree[k + 1..];
    }

    method Clear()
      modifies this
      ensures Valid() && tree == []
    {
      tree := [];
    }
  }

  ghost predicate HasKey<V>(tree: seq<Entry<V>>, start: nat) {
    exists j :: 0 <= j < |tree| && tree[j].range.start == start
  }

  lemma {:induction false} KeyBefore<V>(tree: seq<Entry<V>>, start: nat)
    requires Ascending(tree)
    ensures var i := UpperBound(tree, start); HasKey(tree, start) <==> i > 0 && tree[i - 1].range.start == start
  {
    hide UpperBound;
    var i := UpperBound(tree, start);
    if j :| 0 <= j < |tree| && tree[j].range.start == start {
      assert j < i ==> j == i - 1 || tree[j].range.start < tree[i - 1].range.start;
      assert i < j ==> tree[i].range.start < tree[j].range.start;
    }
  }

  lemma {:induction false} InsertedCases<V>(tree: seq<Entry<V>>, r: AddrRange, v: V)
    requires Ordered(tree) && Disjoint(tree)
    ensures Ascending(tree)
    ensures var i, t := UpperBound(tree, r.start), Inserted(tree, r, v);
            Find(tree, r) == |tree| ==>
              && (HasKey(tree, r.start) <==> i > 0 && tree[i - 1].range.start == r.start)
              && (HasKey(tree, r.start) ==> r.end < r.start)
              && (!HasKey(tree, r.start) ==>
                    && t == Place(tree, i, Entry(r, v)) && t[..i] + t[i + 1..] == tree && Ascending(t)
                    && (Ordered(t) && Disjoint(t) <==> r.start <= r.end && Safe(tree, r)))
  {
    hide UpperBound, Place;
    if Find(tree, r) == |tree| {
      var i, t := UpperBound(tree, r.start), Inserted(tree, r, v);
      KeyBefore(tree, r.start);
      PlaceParts(tree, i, Entry(r, v));
      if r.start <= r.end {
        InsertedOrdered(tree, r, v);
        InsertedDisjoint(tree, r, v);
      } else if !HasKey(tree, r.start) {
        PlacedAscending(tree, i, Entry(r, v));
        assert t[i].range == r;
      }
    }
  }
}
