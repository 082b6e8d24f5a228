/**
 Singly-linked tail queues as the C macros build them: a head with a pointer to the first
 element and a pointer to the slot that holds the terminating null.  `Elems` is the sequence
 of elements the links denote.
 */
module Stailq {

  class Node<T> {
    var value: T
    var next: Node?<T>

    constructor (value: T)
      ensures this.value == value && next == null
    {
      this.value := value;
      next := null;
    }
  }

  // What stqh_last points at: the head's own first slot, or the next slot of an element.
  datatype Slot<T> = FirstSlot | NextSlot(node: Node<T>)

  ghost predicate Distinct<T>(s: seq<T>) {
    forall i, j :: 0 <= i < j < |s| ==> s[i] != s[j]
  }

  lemma DistinctInsert<T>(s: seq<T>, p: nat, x: T)
    requires Distinct(s) && x !in s && p <= |s|
    ensures Distinct(s[..p] + [x] + s[p..])
    ensures var s' := s[..p] + [x] + s[p..];
            |s'| == |s| + 1 && s'[p] == x &&
            (forall i :: 0 <= i < p ==> s'[i] == s[i]) && (forall i :: p < i < |s'| ==> s'[i] == s[i - 1])
  {
  }

  lemma DistinctRemove<T>(s: seq<T>, p: nat)
    requires Distinct(s) && p < |s|
    ensures Distinct(s[..p] + s[p + 1..])
    ensures var s' := s[..p] + s[p + 1..];
            |s'| == |s| - 1 &&
            (forall i :: 0 <= i < p ==> s'[i] == s[i]) && (forall i :: p <= i < |s'| ==> s'[i] == s[i + 1])
  {
  }

  lemma DistinctConcat<T>(s: seq<T>, t: seq<T>)
    requires Distinct(s) && Distinct(t) && forall x :: x in s ==> x !in t
    ensures Distinct(s + t)
  {
    forall i, j | 0 <= i < j < |s + t|
      ensures (s + t)[i] != (s + t)[j]
    {
      if i < |s| <= j {
        assert s[i] in s && t[j - |s|] in t;
      }
    }
  }

  class Head<T> {
    var first: Node?<T>
    var last: Slot<T>
    ghost var Elems: seq<Node<T>>

    ghost predicate Valid()
      reads this, Elems`next
    {
      Distinct(Elems) &&
      first == (if Elems == [] then null else Elems[0]) &&
      (forall i, j :: 0 <= i && j == i + 1 && j < |Elems| ==> Elems[i].next == Elems[j]) &&
      (Elems != [] ==> Elems[|Elems| - 1].next == null) &&
      last == if Elems == [] then FirstSlot else NextSlot(Elems[|Elems| - 1])
    }

    constructor ()
      ensures Valid() && Elems == []
    {
      first := null;
      last := FirstSlot;
      Elems := [];
    }

    method Init()
      modifies this
      ensures Valid() && Elems == []
    {
      first := null;
      last := FirstSlot;
      Elems := [];
    }

    method InsertHead(elm: Node<T>)
      requires Valid() && elm !in Elems
      modifies this, elm`next
      ensures Valid() && Elems == [elm] + old(Elems)
    {
      elm.next := first;
      if elm.next == null {
        last := NextSlot(elm);
      }
      first := elm;
      Elems := [elm] + Elems;
    }

    method InsertTail(elm: Node<T>)
      requires Valid() && elm !in Elems
      modifies this, elm`next, Elems`next
      ensures Valid() && Elems == old(Elems) + [elm]
    {
      elm.next := null;
      match last {
        case FirstSlot => first := elm;
        case NextSlot(node) => node.next := elm;
      }
      last := NextSlot(elm);
      Elems := Elems + [elm];
    }

    method InsertAfter(tqelm: Node<T>, elm: Node<T>, ghost p: nat)
      requires Valid() && elm !in Elems && p < |Elems| && Elems[p] == tqelm
      modifies this, elm`next, tqelm`next
      ensures Valid() && Elems == old(Elems)[..p + 1] + [elm] + old(Elems)[p + 1..]
    {
      assert p + 1 < |Elems| ==> Elems[p].next == Elems[p + 1];
      elm.next := tqelm.next;
      if elm.next == null {
        last := NextSlot(elm);
      }
      tqelm.next := elm;
      DistinctInsert(Elems, p + 1, elm);
      Elems := Elems[..p + 1] + [elm] + Elems[p + 1..];
    }

    method RemoveHead()
      requires Valid() && Elems != []
      modifies this
      ensures Valid() && Elems == old(Elems)[1..]
    {
      first := first.next;
      if first == null {
        last := FirstSlot;
      }
      Elems := Elems[1..];
    }

    // Unlinks a member; the search for its predecessor ends because it is a member.
    method Remove(elm: Node<T>, ghost p: nat)
      requires Valid() && p < |Elems| && Elems[p] == elm
      modifies this, Elems`next
      ensures Valid() && Elems == old(Elems)[..p] + old(Elems)[p + 1..]
    {
      if first == elm {
        RemoveHead();
      } else {
        var curelm := first;
        ghost var i := 0;
        while curelm.next != elm
          invariant 0 <= i < p && curelm == Elems[i]
          decreases p - i
        {
          assert Elems[i].next == Elems[i + 1];
          curelm := curelm.next;
          i := i + 1;
        }
        assert Elems[i].next == Elems[i + 1];
        assert i + 1 == p;
        assert p + 1 < |Elems| ==> Elems[p].next == Elems[p + 1];
        curelm.next := curelm.next.next;
        if curelm.next == null {
          last := NextSlot(curelm);
        }
        DistinctRemove(Elems, p);
        Elems := Elems[..p] + Elems[p + 1..];
      }
    }

    // Appends head2's elements and empties it.
    method Concat(head2: Head<T>)
      requires head2 != this && Valid() && head2.Valid()
      requires forall n :: n in Elems ==> n !in head2.Elems
      modifies this, head2, Elems`next
      ensures Valid() && Elems == old(Elems) + old(head2.Elems)
      ensures head2.Valid() && head2.Elems == []
    {
      if head2.first != null {
        match last {
          case FirstSlot => first := head2.first;
          case NextSlot(node) => node.next := head2.first;
        }
        last := head2.last;
        DistinctConcat(Elems, head2.Elems);
        assert head2.Elems[|head2.Elems| - 1] !in Elems;
        Elems := Elems + head2.Elems;
        head2.Init();
      }
    }
  }
}
