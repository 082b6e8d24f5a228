/**
 The second pass over the sections: the list is walked once, and a section that starts before the
 end of file so far is taken out and put back where it belongs.
 */
module ElfOrder {
  import opened Options
  import opened ElfTypes
  import opened Stailq
  import opened ElfSections

  // ----- The walk on values -----

  function Without<T>(s: seq<T>, i: nat): (r: seq<T>)
    requires i < |s|
    ensures |r| == |s| - 1
  {
    s[..i] + s[i + 1..]
  }

  function With<T>(s: seq<T>, p: nat, x: T): (r: seq<T>)
    requires p <= |s|
    ensures |r| == |s| + 1
  {
    s[..p] + [x] + s[p..]
  }

  // The sections in the order of the list, the place of the next one, and the end of file so far.
  // A section can be put back behind the place of the next one, where the walk meets it again:
  // moved tells which ones have been.
  datatype Walk = Walk(vs: seq<Section>, moved: seq<bool>, i: nat, rc: nat)

  // One turn of the loop; None for an error.
  function Turn(w: Walk): Option<Walk>
    requires w.i < |w.vs| == |w.moved|
  {
    var s := w.vs[w.i];
    if s.Hollow() then Some(w.(i := w.i + 1))
    else if s.offset >= w.rc then Some(w.(i := w.i + 1, rc := s.End()))
    else if s.End() >= w.rc then None
    else
      var rest := Without(w.vs, w.i);
      var p := First(rest, s);
      if p < |rest| && s.End() >= rest[p].offset then None
      else Some(Walk(With(rest, p, s), With(Without(w.moved, w.i), p, w.moved[w.i] || p > w.i), if p <= w.i then w.i + 1 else w.i, w.rc))
  }

  // Everything before section q ends before it, and it ends before the next one.
  ghost predicate SettledAt(vs: seq<Section>, q: nat)
    requires q < |vs|
  {
    (forall x :: 0 <= x < q ==> vs[x].End() < vs[q].offset) && (q + 1 < |vs| ==> vs[q].End() < vs[q + 1].offset)
  }

  ghost predicate Sound(w: Walk) {
    w.i <= |w.vs| == |w.moved| && forall q :: w.i <= q < |w.vs| && w.moved[q] ==> SettledAt(w.vs, q)
  }

  function Unmoved(moved: seq<bool>): nat {
    multiset(moved)[false]
  }

  // The whole walk: the final order and the end of file.
  function Pass(w: Walk): Option<(seq<Section>, nat)>
    requires Sound(w)
    decreases Unmoved(w.moved), |w.vs| - w.i
  {
    if w.i == |w.vs| then Some((w.vs, w.rc))
    else
      match Turn(w)
      case None => None
      case Some(w') =>
        TurnSound(w);
        Pass(w')
  }

  function Start(ss: seq<Section>, rc: nat): (w: Walk)
    ensures Sound(w) && w.vs == ss && w.i == 0 && w.rc == rc
  {
    Walk(ss, seq(|ss|, _ => false), 0, rc)
  }

  function Sorted(ss: seq<Section>, rc: nat): Option<(seq<Section>, nat)> {
    Pass(Start(ss, rc))
  }

  // ----- The walk ends -----

  lemma WithoutAt<T>(s: seq<T>, i: nat, k: nat)
    requires i < |s| && k < |s| - 1
    ensures Without(s, i)[k] == s[if k < i then k else k + 1]
  {
  }

  lemma WithAt<T>(s: seq<T>, p: nat, x: T, k: nat)
    requires p <= |s| && k <= |s|
    ensures With(s, p, x)[k] == if k < p then s[k] else if k == p then x else s[k - 1]
  {
  }

  // Where an element of the list is after section i has been put at p.
  lemma MovedAt<T>(s: seq<T>, i: nat, p: nat, x: T, k: nat)
    requires i < |s| && p < |s| && k < |s|
    ensures With(Without(s, i), p, x)[k] ==
            if k == p then x
            else var k' := if k < p then k else k - 1; s[if k' < i then k' else k' + 1]
  {
    var rest := Without(s, i);
    WithAt(rest, p, x, k);
    if k != p {
      WithoutAt(s, i, if k < p then k else k - 1);
    }
  }

  lemma WithoutMultiset<T>(s: seq<T>, i: nat)
    requires i < |s|
    ensures multiset(s) == multiset(Without(s, i)) + multiset{s[i]}
  {
    assert s == s[..i] + [s[i]] + s[i + 1..];
  }

  lemma WithMultiset<T>(s: seq<T>, p: nat, x: T)
    requires p <= |s|
    ensures multiset(With(s, p, x)) == multiset(s) + multiset{x}
  {
    assert s == s[..p] + s[p..];
  }

  lemma MovedMultiset<T>(s: seq<T>, i: nat, p: nat, x: T)
    requires i < |s| && p < |s|
    ensures multiset(With(Without(s, i), p, x)) == multiset(s) - multiset{s[i]} + multiset{x}
  {
    hide With, Without;
    WithoutMultiset(s, i);
    WithMultiset(Without(s, i), p, x);
  }

  // A section that has been moved is not moved again.
  lemma StaysSettled(w: Walk)
    requires Sound(w) && w.i < |w.vs| && w.moved[w.i]
    ensures First(Without(w.vs, w.i), w.vs[w.i]) == w.i
  {
    hide First;
    var s, rest := w.vs[w.i], Without(w.vs, w.i);
    var p := First(rest, s);
    if p < |rest| {
      WithoutAt(w.vs, w.i, p);
    }
    if w.i < |rest| {
      WithoutAt(w.vs, w.i, w.i);
    }
    assert SettledAt(w.vs, w.i);
  }

  lemma TurnSound(w: Walk)
    requires Sound(w) && w.i < |w.vs| && Turn(w).Some?
    ensures var w' := Turn(w).value;
            && Sound(w') && |w'.vs| == |w.vs|
            && (Unmoved(w'.moved) < Unmoved(w.moved) || (Unmoved(w'.moved) == Unmoved(w.moved) && |w'.vs| - w'.i < |w.vs| - w.i))
  {
    hide First, SettledAt, Unmoved, With, Without;
    var s, w' := w.vs[w.i], Turn(w).value;
    if !s.Hollow() && s.offset < w.rc {
      var rest := Without(w.vs, w.i);
      var p := First(rest, s);
      if w.moved[w.i] {
        StaysSettled(w);
      }
      UnmovedTurn(w.moved, w.i, p);
      forall q | w'.i <= q < |w'.vs| && w'.moved[q]
        ensures SettledAt(w'.vs, q)
      {
        MovedAt(w.moved, w.i, p, w.moved[w.i] || p > w.i, q);
        if q == p {
          JustSettled(w.vs, w.i, p);
        } else {
          StillSettled(w, p, q);
        }
      }
    }
  }

  lemma UnmovedTurn(moved: seq<bool>, i: nat, p: nat)
    requires i < |moved| && p < |moved| && (moved[i] ==> p == i)
    ensures var moved' := With(Without(moved, i), p, moved[i] || p > i);
            Unmoved(moved') == Unmoved(moved) - if p > i then 1 else 0
  {
    MovedMultiset(moved, i, p, moved[i] || p > i);
  }

  lemma JustSettled(vs: seq<Section>, i: nat, p: nat)
    requires i < |vs| && p < |vs| && p == First(Without(vs, i), vs[i])
    requires p < |vs| - 1 ==> vs[i].End() < Without(vs, i)[p].offset
    ensures SettledAt(With(Without(vs, i), p, vs[i]), p)
  {
    hide First;
    var rest := Without(vs, i);
    var vs' := With(rest, p, vs[i]);
    forall x | 0 <= x < p
      ensures vs'[x].End() < vs'[p].offset
    {
      WithAt(rest, p, vs[i], x);
    }
    WithAt(rest, p, vs[i], p);
    if p + 1 < |vs'| {
      WithAt(rest, p, vs[i], p + 1);
    }
  }

  lemma StillSettled(w: Walk, p: nat, q: nat)
    requires Sound(w) && w.i < |w.vs| && p < |w.vs| && q < |w.vs| && q != p
    requires p == First(Without(w.vs, w.i), w.vs[w.i])
    requires q >= if p <= w.i then w.i + 1 else w.i
    requires var k' := if q < p then q else q - 1; w.moved[if k' < w.i then k' else k' + 1]
    ensures SettledAt(With(Without(w.vs, w.i), p, w.vs[w.i]), q)
  {
    hide First, With, Without;
    var vs, i := w.vs, w.i;
    var vs' := With(Without(vs, i), p, vs[i]);
    var o := if q < p then q + 1 else q;
    assert SettledAt(vs, o);
    MovedAt(vs, i, p, vs[i], q);
    forall x | 0 <= x < q
      ensures vs'[x].End() < vs'[q].offset
    {
      MovedAt(vs, i, p, vs[i], x);
    }
    if q + 1 < |vs'| {
      MovedAt(vs, i, p, vs[i], q + 1);
      if q + 1 == p {
        WithoutAt(vs, i, q);
      }
    }
  }

  // ----- What the walk keeps -----

  lemma TurnKeeps(w: Walk)
    requires w.i < |w.vs| == |w.moved| && Turn(w).Some?
    ensures multiset(Turn(w).value.vs) == multiset(w.vs)
  {
    hide First;
    var s := w.vs[w.i];
    if !s.Hollow() && s.offset < w.rc {
      MovedMultiset(w.vs, w.i, First(Without(w.vs, w.i), s), s);
      assert s in multiset(w.vs);
    }
  }

  // No section is lost.
  lemma {:induction false} PassKeeps(w: Walk)
    requires Sound(w) && Pass(w).Some?
    ensures multiset(Pass(w).value.0) == multiset(w.vs)
    decreases Unmoved(w.moved), |w.vs| - w.i
  {
    hide Turn, Unmoved;
    if w.i < |w.vs| {
      TurnSound(w);
      TurnKeeps(w);
      PassKeeps(Turn(w).value);
    }
  }

  // What has been met ends no later than the end of file so far.
  ghost predicate Met(w: Walk, rc0: nat) {
    Sound(w) && rc0 <= w.rc <= MaxEnd(w.vs, rc0) && forall k :: 0 <= k < w.i && !w.vs[k].Hollow() ==> w.vs[k].End() <= w.rc
  }

  lemma TurnMet(w: Walk, rc0: nat)
    requires Met(w, rc0) && w.i < |w.vs| && Turn(w).Some?
    ensures Met(Turn(w).value, rc0)
  {
    hide First, MaxEnd, Sound;
    assert w.i < |w.vs| == |w.moved| by {
      SoundLengths(w);
    }
    var s, w' := w.vs[w.i], Turn(w).value;
    TurnSound(w);
    if s.Hollow() {
    } else if s.offset >= w.rc {
      MaxEndBounds(w.vs, rc0, w.i);
    } else {
      TurnKeeps(w);
      SameMultiset(w'.vs, w.vs);
      SameMaxEnd(w'.vs, w.vs, rc0);
      var p := First(Without(w.vs, w.i), s);
      forall k | 0 <= k < w'.i && !w'.vs[k].Hollow()
        ensures w'.vs[k].End() <= w.rc
      {
        MovedAt(w.vs, w.i, p, s, k);
      }
    }
  }

  lemma SoundLengths(w: Walk)
    requires Sound(w)
    ensures |w.vs| == |w.moved|
  {
  }

  // The end of file is the end of the last section.
  lemma {:induction false} PassEnd(w: Walk, rc0: nat)
    requires Met(w, rc0) && Pass(w).Some?
    ensures Pass(w).value.1 == MaxEnd(Pass(w).value.0, rc0)
    decreases Unmoved(w.moved), |w.vs| - w.i
  {
    hide Turn, Unmoved, MaxEnd;
    if w.i < |w.vs| {
      TurnSound(w);
      TurnMet(w, rc0);
      PassEnd(Turn(w).value, rc0);
    } else {
      var i := MaxEndAttained(w.vs, rc0);
    }
  }

  // A successful pass loses no section, and its end of file is the end of the last one.
  lemma {:induction false} SortedFacts(ss: seq<Section>, rc: nat)
    requires Sorted(ss, rc).Some?
    ensures var (ss', end) := Sorted(ss, rc).value;
            multiset(ss') == multiset(ss) && end == MaxEnd(ss, rc) == MaxEnd(ss', rc)
  {
    hide Pass, MaxEnd;
    var w := Start(ss, rc);
    var ss' := Pass(w).value.0;
    PassKeeps(w);
    var i := MaxEndAttained(ss, rc);
    PassEnd(w, rc);
    SameMultiset(ss', ss);
    SameMaxEnd(ss', ss, rc);
  }

  // ----- Sections past the headers -----

  // Sections past the headers are only put back among those already met: the walk is the pass on
  // the sections one after the other.
  lemma {:induction false} PassIsOrdered(ss: seq<Section>, rc: nat, i: nat, pv: seq<Section>, m: nat, moved: seq<bool>)
    requires PastHeaders(ss, rc) && i <= |ss| == |moved| && Ordered(ss[..i], rc) == Some((pv, m)) && |pv| == i
    requires forall k :: 0 <= k < |moved| ==> !moved[k]
    ensures Sound(Walk(pv + ss[i..], moved, i, m)) && Pass(Walk(pv + ss[i..], moved, i, m)) == Ordered(ss, rc)
    decreases |ss| - i
  {
    hide Ordered, PlaceOne, First, PastHeaders, Turn;
    var w := Walk(pv + ss[i..], moved, i, m);
    if i == |ss| {
      assert ss[..i] == ss && pv + ss[i..] == pv;
    } else {
      OrderedTurn(ss, rc, i, pv, m, moved);
      if Turn(w).Some? {
        var (pv', m') := Ordered(ss[..i + 1], rc).value;
        PassIsOrdered(ss, rc, i + 1, pv', m', Turn(w).value.moved);
      }
    }
  }

  lemma {:induction false} OrderedTurn(ss: seq<Section>, rc: nat, i: nat, pv: seq<Section>, m: nat, moved: seq<bool>)
    requires PastHeaders(ss, rc) && i < |ss| == |moved| && Ordered(ss[..i], rc) == Some((pv, m)) && |pv| == i
    requires forall k :: 0 <= k < |moved| ==> !moved[k]
    ensures var t, o := Turn(Walk(pv + ss[i..], moved, i, m)), Ordered(ss[..i + 1], rc);
            && (t.None? ==> Ordered(ss, rc).None?)
            && (t.Some? ==> o.Some? && var (pv', m') := o.value;
                  |pv'| == i + 1 && |t.value.moved| == |moved| && t.value == Walk(pv' + ss[i + 1..], t.value.moved, i + 1, m') &&
                  forall k :: 0 <= k < |moved| ==> !t.value.moved[k])
  {
    hide Ordered, First, PastHeaders;
    var s, vs := ss[i], pv + ss[i..];
    PassStep(ss, i, rc, pv, m);
    assert vs[i] == s && ss[i..] == [s] + ss[i + 1..];
    if s.Hollow() || s.offset >= m {
      assert pv + [s] + ss[i + 1..] == vs;
    } else {
      var rest, p := Without(vs, i), First(pv, s);
      assert rest == pv + ss[i + 1..];
      FirstInFront(pv, ss[i + 1..], s);
      assert With(rest, p, s) == pv[..p] + [s] + pv[p..] + ss[i + 1..];
      StillUnmoved(moved, i, p);
    }
  }

  lemma StillUnmoved(moved: seq<bool>, i: nat, p: nat)
    requires i < |moved| && p < |moved| && forall k :: 0 <= k < |moved| ==> !moved[k]
    ensures forall k :: 0 <= k < |moved| ==> !With(Without(moved, i), p, false)[k]
  {
    forall k | 0 <= k < |moved|
      ensures !With(Without(moved, i), p, false)[k]
    {
      MovedAt(moved, i, p, false, k);
    }
  }

  lemma {:induction false} FirstInFront(a: seq<Section>, b: seq<Section>, s: Section)
    requires First(a, s) < |a|
    ensures First(a + b, s) == First(a, s)
  {
    hide First;
    var p, q := First(a, s), First(a + b, s);
    assert forall k :: 0 <= k < |a| ==> (a + b)[k] == a[k];
  }

  lemma {:induction false} SortedIsOrdered(ss: seq<Section>, rc: nat)
    requires PastHeaders(ss, rc)
    ensures Sorted(ss, rc) == Ordered(ss, rc)
  {
    var w := Start(ss, rc);
    assert ss[..0] == [] && [] + ss[0..] == ss;
    NothingOrdered(rc);
    PassIsOrdered(ss, rc, 0, [], rc, w.moved);
  }

  // ----- The exact success condition -----

  // Sections without contents end before those with contents start, so they stop no search.
  ghost predicate HollowClear(vs: seq<Section>) {
    forall h, s :: h in vs && s in vs && h.Hollow() && !s.Hollow() ==> h.End() < s.offset
  }

  // The sections met are in order, and the end of file is the end of the last of them.
  ghost predicate InStep(w: Walk, rc0: nat) {
    Sound(w) && Ascending(w.vs[..w.i]) && w.rc == MaxEnd(w.vs[..w.i], rc0)
  }

  ghost predicate AdmissibleFrom(vs: seq<Section>, i: nat, rc0: nat) {
    forall j :: i <= j < |vs| ==> AdmissibleAt(vs, j, rc0)
  }

  // Whether a section is admissible depends on the set of those before it only.
  lemma SameBefore(vs: seq<Section>, vs': seq<Section>, j: nat, rc0: nat)
    requires j < |vs| && j < |vs'| && vs[j] == vs'[j] && SameMembers(vs[..j], vs'[..j])
    ensures AdmissibleAt(vs, j, rc0) <==> AdmissibleAt(vs', j, rc0)
  {
    SameMaxEnd(vs[..j], vs'[..j], rc0);
    AdmissibleMembers(vs, j, rc0);
    AdmissibleMembers(vs', j, rc0);
  }

  lemma {:induction false} AdmissibleMembers(vs: seq<Section>, j: nat, rc0: nat)
    requires j < |vs|
    ensures AdmissibleAt(vs, j, rc0) <==>
            var s, m := vs[j], MaxEnd(vs[..j], rc0);
            s.Hollow() || s.offset >= m || (s.End() < m && forall t :: t in vs[..j] && !t.Hollow() ==> Apart(t, s))
  {
    hide MaxEnd;
    forall i | 0 <= i < j
      ensures vs[i] in vs[..j]
    {
      assert vs[..j][i] == vs[i];
    }
  }

  lemma {:induction false} MaxEndIs(ss: seq<Section>, rc: nat, m: nat)
    requires m >= rc && (m == rc || exists s :: s in ss && !s.Hollow() && s.End() == m)
    requires forall s :: s in ss && !s.Hollow() ==> s.End() <= m
    ensures MaxEnd(ss, rc) == m
  {
    hide MaxEnd;
    if m != rc {
      var s :| s in ss && !s.Hollow() && s.End() == m;
      var i :| 0 <= i < |ss| && ss[i] == s;
      MaxEndBounds(ss, rc, i);
    }
    var i := MaxEndAttained(ss, rc);
  }

  lemma {:induction false} SameMaxEnd(a: seq<Section>, b: seq<Section>, rc: nat)
    requires SameMembers(a, b)
    ensures MaxEnd(a, rc) == MaxEnd(b, rc)
  {
    hide MaxEnd;
    var i := MaxEndAttained(b, rc);
    forall s | s in a && !s.Hollow()
      ensures s.End() <= MaxEnd(b, rc)
    {
      var k :| 0 <= k < |b| && b[k] == s;
      MaxEndBounds(b, rc, k);
    }
    if MaxEnd(b, rc) != rc {
      assert b[i] in b;
    }
    MaxEndIs(a, rc, MaxEnd(b, rc));
  }

  // Section i stays where it is: it occupies no space or starts no earlier than the end of file.
  lemma {:induction false} StayAdmissible(w: Walk, rc0: nat)
    requires InStep(w, rc0) && w.i < |w.vs| && (w.vs[w.i].Hollow() || w.vs[w.i].offset >= w.rc)
    ensures var s := w.vs[w.i]; var vs' := w.vs[..w.i + 1];
            AdmissibleAt(w.vs, w.i, rc0) && Ascending(vs') && MaxEnd(vs', rc0) == if s.Hollow() then w.rc else s.End()
  {
    var pv, s := w.vs[..w.i], w.vs[w.i];
    assert w.vs[..w.i + 1] == pv + [s] && (pv + [s])[..w.i] == pv;
    AscendingAppend(pv, pv, w.rc, s, rc0);
  }

  // A section that has to be moved, and what is in front of its place.
  ghost predicate Moves(w: Walk, p: nat, rc0: nat) {
    && InStep(w, rc0) && w.i < |w.vs| && !w.vs[w.i].Hollow() && w.vs[w.i].End() < w.rc && w.vs[w.i].offset < w.rc
    && p == First(Without(w.vs, w.i), w.vs[w.i])
  }

  // The section that stops the search, if it is too close.
  lemma TooClose(w: Walk, p: nat, rc0: nat)
    requires Moves(w, p, rc0) && HollowClear(w.vs) && p < |w.vs| - 1 && w.vs[w.i].End() >= Without(w.vs, w.i)[p].offset
    ensures !AdmissibleFrom(w.vs, w.i, rc0)
  {
    hide First, MaxEnd;
    var s, k := w.vs[w.i], if p < w.i then p else p + 1;
    var t := w.vs[k];
    WithoutAt(w.vs, w.i, p);
    assert t in w.vs && s in w.vs && !t.Hollow() && !Apart(t, s) && !Apart(s, t);
    if p < w.i {
      assert !AdmissibleAt(w.vs, w.i, rc0);
    } else {
      PrefixMaxEnd(w.vs, w.i, k, rc0);
      assert !AdmissibleAt(w.vs, k, rc0);
    }
  }

  lemma {:induction false} PrefixMaxEnd(vs: seq<Section>, i: nat, k: nat, rc: nat)
    requires i <= k <= |vs|
    ensures MaxEnd(vs[..i], rc) <= MaxEnd(vs[..k], rc)
  {
    hide MaxEnd;
    var a := MaxEndAttained(vs[..i], rc);
    if MaxEnd(vs[..i], rc) > rc {
      assert vs[..i][a] == vs[..k][a];
      MaxEndBounds(vs[..k], rc, a);
    }
  }

  // A section that can be moved is apart from all sections before it.
  lemma MoveAdmissible(w: Walk, p: nat, rc0: nat)
    requires Moves(w, p, rc0) && HollowClear(w.vs) && (p < |w.vs| - 1 ==> w.vs[w.i].End() < Without(w.vs, w.i)[p].offset)
    ensures AdmissibleAt(w.vs, w.i, rc0)
    ensures forall x :: 0 <= x < w.i && !w.vs[x].Hollow() ==> if x < p then w.vs[x].End() < w.vs[w.i].offset else w.vs[w.i].End() < w.vs[x].offset
  {
    hide First, MaxEnd;
    var s, pv := w.vs[w.i], w.vs[..w.i];
    forall x | 0 <= x < w.i && !w.vs[x].Hollow()
      ensures if x < p then w.vs[x].End() < s.offset else s.End() < w.vs[x].offset
    {
      WithoutAt(w.vs, w.i, x);
      if p <= x {
        WithoutAt(w.vs, w.i, p);
        assert w.vs[p] in w.vs && s in w.vs && !w.vs[p].Hollow();
        assert p < x ==> pv[p].End() <= pv[x].offset;
      }
    }
  }

  lemma {:induction false} MoveLeft(w: Walk, p: nat, rc0: nat)
    requires Moves(w, p, rc0) && HollowClear(w.vs) && p <= w.i && (p < |w.vs| - 1 ==> w.vs[w.i].End() < Without(w.vs, w.i)[p].offset)
    ensures var vs' := With(Without(w.vs, w.i), p, w.vs[w.i]);
            && Ascending(vs'[..w.i + 1]) && MaxEnd(vs'[..w.i + 1], rc0) == w.rc
            && (AdmissibleFrom(vs', w.i + 1, rc0) <==> AdmissibleFrom(w.vs, w.i, rc0))
  {
    hide First, MaxEnd, AdmissibleAt, With, Without, HollowClear, Ascending;
    var vs, i, s := w.vs, w.i, w.vs[w.i];
    var vs' := With(Without(vs, i), p, s);
    MoveAdmissible(w, p, rc0);
    LeftAscending(w, p, rc0);
    MovedMembers(vs, i, p, i + 1);
    assert vs[..i + 1] == vs[..i] + [s];
    MaxEndMore(vs[..i], s, rc0);
    SameMaxEnd(vs[..i + 1], vs'[..i + 1], rc0);
    forall j | i < j < |vs|
      ensures AdmissibleAt(vs', j, rc0) <==> AdmissibleAt(vs, j, rc0)
    {
      MovedMembers(vs, i, p, j);
      SameBefore(vs, vs', j, rc0);
    }
  }

  lemma LeftAscending(w: Walk, p: nat, rc0: nat)
    requires Moves(w, p, rc0) && HollowClear(w.vs) && p <= w.i && (p < |w.vs| - 1 ==> w.vs[w.i].End() < Without(w.vs, w.i)[p].offset)
    ensures Ascending(With(Without(w.vs, w.i), p, w.vs[w.i])[..w.i + 1])
  {
    hide First, MaxEnd, HollowClear, AdmissibleAt;
    var vs, i, s := w.vs, w.i, w.vs[w.i];
    var pv := vs[..i];
    MoveAdmissible(w, p, rc0);
    MovedPrefix(vs, i, p, i + 1);
    assert Without(vs[..i + 1], i) == pv;
    AscendingInside(pv, s, p);
  }

  lemma AscendingInside(pv: seq<Section>, s: Section, p: nat)
    requires Ascending(pv) && p <= |pv|
    requires forall x :: 0 <= x < |pv| && !pv[x].Hollow() ==> if x < p then pv[x].End() < s.offset else s.End() < pv[x].offset
    ensures Ascending(With(pv, p, s))
  {
    hide With;
    var all := With(pv, p, s);
    forall i, j | 0 <= i < j < |all| && !all[i].Hollow() && !all[j].Hollow()
      ensures all[i].End() <= all[j].offset
    {
      WithAt(pv, p, s, i);
      WithAt(pv, p, s, j);
    }
  }

  lemma {:induction false} MaxEndMore(pv: seq<Section>, s: Section, rc: nat)
    ensures MaxEnd(pv + [s], rc) == if s.Hollow() || s.End() <= MaxEnd(pv, rc) then MaxEnd(pv, rc) else s.End()
  {
    assert (pv + [s])[..|pv|] == pv;
  }

  // Behind both places the list is as it was.
  lemma MovedPrefix(vs: seq<Section>, i: nat, p: nat, j: nat)
    requires i < j && p < j <= |vs|
    ensures With(Without(vs, i), p, vs[i])[..j] == With(Without(vs[..j], i), p, vs[i])
    ensures j < |vs| ==> With(Without(vs, i), p, vs[i])[j] == vs[j]
  {
    hide With, Without;
    var a, b := With(Without(vs, i), p, vs[i])[..j], With(Without(vs[..j], i), p, vs[i]);
    forall k | 0 <= k < j
      ensures a[k] == b[k]
    {
      MovedAt(vs, i, p, vs[i], k);
      MovedAt(vs[..j], i, p, vs[i], k);
    }
    if j < |vs| {
      MovedAt(vs, i, p, vs[i], j);
    }
  }

  lemma MovedMembers(vs: seq<Section>, i: nat, p: nat, j: nat)
    requires i < j && p < j <= |vs|
    ensures var vs' := With(Without(vs, i), p, vs[i]); SameMembers(vs[..j], vs'[..j]) && (j < |vs| ==> vs'[j] == vs[j])
  {
    hide With, Without, SameMembers;
    MovedPrefix(vs, i, p, j);
    MovedMultiset(vs[..j], i, p, vs[i]);
    assert vs[i] in multiset(vs[..j]) by {
      assert vs[..j][i] == vs[i];
    }
    SameMultiset(vs[..j], With(Without(vs, i), p, vs[i])[..j]);
  }

  lemma SameMultiset<T(!new)>(a: seq<T>, b: seq<T>)
    requires multiset(a) == multiset(b)
    ensures SameMembers(a, b)
  {
    forall x
      ensures x in a <==> x in b
    {
      assert x in a <==> x in multiset(a);
      assert x in b <==> x in multiset(b);
    }
  }

  // Section j of the list is as admissible as it is after a section has been put at p.
  ghost predicate Matches(vs: seq<Section>, vs': seq<Section>, p: nat, rc0: nat, j: nat)
    requires 0 < j < |vs| == |vs'|
  {
    AdmissibleAt(vs', if j <= p then j - 1 else j, rc0) <==> AdmissibleAt(vs, j, rc0)
  }

  lemma MoveRight(w: Walk, p: nat, rc0: nat)
    requires Moves(w, p, rc0) && HollowClear(w.vs) && w.i < p && (p < |w.vs| - 1 ==> w.vs[w.i].End() < Without(w.vs, w.i)[p].offset)
    ensures var vs' := With(Without(w.vs, w.i), p, w.vs[w.i]);
            && vs'[..w.i] == w.vs[..w.i]
            && (AdmissibleFrom(vs', w.i, rc0) <==> AdmissibleFrom(w.vs, w.i, rc0))
  {
    hide First, MaxEnd, AdmissibleAt;
    var vs, i, s := w.vs, w.i, w.vs[w.i];
    var vs' := With(Without(vs, i), p, s);
    MoveAdmissible(w, p, rc0);
    forall j | i < j < |vs|
      ensures Matches(vs, vs', p, rc0, j)
    {
      if j <= p {
        SkippedAdmissible(w, p, rc0, j);
      } else {
        MovedMembers(vs, i, p, j);
        SameBefore(vs, vs', j, rc0);
      }
    }
    PlacedAdmissible(w, p, rc0);
    FromTo(vs, vs', i, p, rc0);
  }

  lemma FromTo(vs: seq<Section>, vs': seq<Section>, i: nat, p: nat, rc0: nat)
    requires i < p < |vs| == |vs'| && AdmissibleAt(vs, i, rc0) && AdmissibleAt(vs', p, rc0)
    requires forall j :: i < j < |vs| ==> Matches(vs, vs', p, rc0, j)
    ensures AdmissibleFrom(vs', i, rc0) <==> AdmissibleFrom(vs, i, rc0)
  {
    hide AdmissibleAt;
    if AdmissibleFrom(vs, i, rc0) {
      forall j | i <= j < |vs'|
        ensures AdmissibleAt(vs', j, rc0)
      {
        if j != p {
          assert Matches(vs, vs', p, rc0, if j < p then j + 1 else j);
        }
      }
    }
    if AdmissibleFrom(vs', i, rc0) {
      forall j | i < j < |vs|
        ensures AdmissibleAt(vs, j, rc0)
      {
        assert Matches(vs, vs', p, rc0, j);
      }
    }
  }

  // The sections in front of the new place end before s.
  lemma InFront(w: Walk, p: nat, rc0: nat, x: nat)
    requires Moves(w, p, rc0) && w.i < p && x < p
    ensures With(Without(w.vs, w.i), p, w.vs[w.i])[x] == Without(w.vs, w.i)[x] == w.vs[if x < w.i then x else x + 1]
    ensures Without(w.vs, w.i)[x].End() < w.vs[w.i].offset
  {
    hide First;
    WithAt(Without(w.vs, w.i), p, w.vs[w.i], x);
    WithoutAt(w.vs, w.i, x);
  }

  // A section that s has been moved past: s does not matter for it.
  lemma SkippedAdmissible(w: Walk, p: nat, rc0: nat, j: nat)
    requires Moves(w, p, rc0) && w.i < j <= p
    ensures AdmissibleAt(With(Without(w.vs, w.i), p, w.vs[w.i]), j - 1, rc0) <==> AdmissibleAt(w.vs, j, rc0)
  {
    hide First, MaxEnd, AdmissibleAt;
    var vs, i, s := w.vs, w.i, w.vs[w.i];
    var vs' := With(Without(vs, i), p, s);
    InFront(w, p, rc0, j - 1);
    var a, b := vs[..j], vs'[..j - 1];
    assert b == vs[..i] + vs[i + 1..j] && a == vs[..i] + [s] + vs[i + 1..j];
    assert forall t :: t in a <==> t in b || t == s;
    PrefixMaxEnd(vs', i, j - 1, rc0);
    assert vs'[..i] == vs[..i];
    WithoutMattering(a, b, s, rc0);
    AdmissibleMembers(vs, j, rc0);
    AdmissibleMembers(vs', j - 1, rc0);
  }

  lemma {:induction false} WithoutMattering(a: seq<Section>, b: seq<Section>, s: Section, rc: nat)
    requires (forall t :: t in a <==> t in b || t == s) && !s.Hollow() && s.End() <= MaxEnd(b, rc)
    ensures MaxEnd(a, rc) == MaxEnd(b, rc)
  {
    hide MaxEnd;
    MaxEndMore(b, s, rc);
    SameMaxEnd(a, b + [s], rc);
  }

  lemma PlacedAdmissible(w: Walk, p: nat, rc0: nat)
    requires Moves(w, p, rc0) && w.i < p < |w.vs|
    ensures AdmissibleAt(With(Without(w.vs, w.i), p, w.vs[w.i]), p, rc0)
  {
    hide First, MaxEnd;
    var vs, i, s := w.vs, w.i, w.vs[w.i];
    var vs' := With(Without(vs, i), p, s);
    assert vs'[p] == s && vs'[..i] == vs[..i];
    PrefixMaxEnd(vs', i, p, rc0);
    forall x | 0 <= x < p
      ensures vs'[x].End() < s.offset
    {
      InFront(w, p, rc0, x);
    }
  }

  lemma TurnAdmissible(w: Walk, rc0: nat)
    requires InStep(w, rc0) && w.i < |w.vs| && HollowClear(w.vs)
    ensures Turn(w).None? ==> !AdmissibleFrom(w.vs, w.i, rc0)
    ensures Turn(w).Some? ==> var w' := Turn(w).value;
              InStep(w', rc0) && HollowClear(w'.vs) && (AdmissibleFrom(w'.vs, w'.i, rc0) <==> AdmissibleFrom(w.vs, w.i, rc0))
  {
    hide First, MaxEnd, AdmissibleAt, Ascending, With, Without, SettledAt;
    var s := w.vs[w.i];
    if Turn(w).Some? {
      TurnSound(w);
      TurnKeeps(w);
      SameMultiset(w.vs, Turn(w).value.vs);
    }
    if s.Hollow() || s.offset >= w.rc {
      StayAdmissible(w, rc0);
    } else if s.End() >= w.rc {
      Straddles(w, rc0);
    } else {
      var p := First(Without(w.vs, w.i), s);
      if p < |w.vs| - 1 && s.End() >= Without(w.vs, w.i)[p].offset {
        TooClose(w, p, rc0);
      } else if p <= w.i {
        MoveLeft(w, p, rc0);
      } else {
        MoveRight(w, p, rc0);
      }
    }
  }

  lemma Straddles(w: Walk, rc0: nat)
    requires InStep(w, rc0) && w.i < |w.vs| && !w.vs[w.i].Hollow() && w.vs[w.i].offset < w.rc <= w.vs[w.i].End()
    ensures !AdmissibleAt(w.vs, w.i, rc0)
  {
  }

  lemma {:induction false} PassAdmissible(w: Walk, rc0: nat)
    requires InStep(w, rc0) && HollowClear(w.vs)
    ensures Pass(w).Some? <==> AdmissibleFrom(w.vs, w.i, rc0)
    ensures Pass(w).Some? ==> Ascending(Pass(w).value.0) && Pass(w).value.1 == MaxEnd(Pass(w).value.0, rc0)
    decreases Unmoved(w.moved), |w.vs| - w.i
  {
    hide Turn, Unmoved, MaxEnd, AdmissibleAt, Ascending, HollowClear;
    if w.i == |w.vs| {
      assert w.vs[..w.i] == w.vs;
    } else {
      TurnAdmissible(w, rc0);
      if Turn(w).Some? {
        TurnSound(w);
        PassAdmissible(Turn(w).value, rc0);
      }
    }
  }

  // If sections without contents stop no search, the pass succeeds exactly on the admissible lists
  // and sorts them, wherever the sections lie.
  lemma {:induction false} SortedIff(ss: seq<Section>, rc: nat)
    requires HollowClear(ss)
    ensures Sorted(ss, rc).Some? <==> Admissible(ss, rc)
    ensures Sorted(ss, rc).Some? ==> Ascending(Sorted(ss, rc).value.0) && Sorted(ss, rc).value.1 == MaxEnd(Sorted(ss, rc).value.0, rc)
  {
    hide Pass, AdmissibleAt;
    assert ss[..0] == [];
    PassAdmissible(Start(ss, rc), rc);
  }

  // The pass does not keep sections off the headers.
  lemma InsideHeaders(s: Section, rc: nat)
    requires !s.Hollow() && s.End() < rc
    ensures Sorted([s], rc) == Some(([s], rc))
  {
    hide First;
    var w := Start([s], rc);
    var w' := Turn(w).value;
    assert Without([s], 0) == [] && With([], 0, s) == [s];
    TurnSound(w);
    assert Pass(w') == Some((w'.vs, w'.rc));
  }

  // Past the headers, a successful pass sorts exactly those lists in which no section without
  // contents misleads the search.
  lemma SortedAscendingIff(ss: seq<Section>, rc: nat)
    requires PastHeaders(ss, rc) && Sorted(ss, rc).Some?
    ensures Ascending(Sorted(ss, rc).value.0) <==> NoneMisleads(ss, rc)
  {
    SortedIsOrdered(ss, rc);
    OrderedAscendingIff(ss, rc);
  }

  // ----- The walk over the list -----

  lemma {:induction false} ValuesWithout(nodes: seq<Node<Section>>, i: nat)
    requires i < |nodes|
    ensures |Values(nodes)| == |nodes| && Values(Without(nodes, i)) == Without(Values(nodes), i) && Values(nodes)[i] == nodes[i].value
  {
    hide Values;
    var a, b, n := nodes[..i], nodes[i + 1..], [nodes[i]];
    assert nodes == a + n + b;
    ValuesConcat(a + n, b);
    ValuesConcat(a, n);
    ValuesConcat(a, b);
    ValuesAt(nodes);
    ValuesAt(a);
    ValuesAt(n);
  }

  lemma {:induction false} ValuesMoved(nodes: seq<Node<Section>>, i: nat, p: nat)
    requires i < |nodes| == |Values(nodes)| && p < |nodes|
    ensures Values(With(Without(nodes, i), p, nodes[i])) == With(Without(Values(nodes), i), p, Values(nodes)[i])
  {
    hide Values;
    ValuesWithout(nodes, i);
    ValuesInsert(Without(nodes, i), nodes[i], p);
  }

  lemma {:induction false} FirstFound(nodes: seq<Node<Section>>, s: Section, p: nat)
    requires p <= |nodes| && (forall k :: 0 <= k < p ==> nodes[k].value.End() < s.offset)
    requires p < |nodes| ==> nodes[p].value.End() >= s.offset
    ensures |Values(nodes)| == |nodes| && First(Values(nodes), s) == p
    ensures p < |nodes| ==> Values(nodes)[p] == nodes[p].value
  {
    hide Values, First;
    ValuesAt(nodes);
  }

  // Takes a section out and puts it back where it belongs.
  method Relink(list: Head<Section>, s: Node<Section>, ghost i: nat) returns (ok: bool, ghost p: nat)
    requires list.Valid() && i < |list.Elems| && list.Elems[i] == s
    modifies list, list.Elems`next
    ensures var vs := old(Values(list.Elems));
            && |vs| == |old(list.Elems)| && p == First(Without(vs, i), vs[i]) && p < |vs|
            && (ok <==> !(p < |vs| - 1 && vs[i].End() >= Without(vs, i)[p].offset))
    ensures ok ==> list.Valid() && list.Elems == With(Without(old(list.Elems), i), p, s)
  {
    hide Values, First;
    ghost var nodes := list.Elems;
    ValuesWithout(nodes, i);
    list.Remove(s, i);
    assert list.Elems == Without(nodes, i);
    ok, p := InsertSection(list, s);
    FirstFound(Without(nodes, i), s.value, p);
  }

  // The links of the list are those of the walk, and s is its next section.
  ghost predicate At(list: Head<Section>, w: Walk, s: Node?<Section>)
    reads list, list.Elems
  {
    && list.Valid() && Sound(w) && Values(list.Elems) == w.vs && |list.Elems| == |w.vs|
    && s == if w.i < |list.Elems| then list.Elems[w.i] else null
  }

  lemma NextOf(list: Head<Section>, i: nat)
    requires list.Valid() && i < |list.Elems|
    ensures list.Elems[i].next == if i + 1 < |list.Elems| then list.Elems[i + 1] else null
  {
  }

  lemma SameNodes(a: seq<Node<Section>>, b: seq<Node<Section>>)
    requires multiset(a) == multiset(b)
    ensures forall k :: 0 <= k < |a| ==> a[k] in b
  {
    forall k | 0 <= k < |a|
      ensures a[k] in b
    {
      assert a[k] in multiset(a);
    }
  }

  // What the walk does with a section that starts before the end of file and ends before it.
  lemma MovingTurn(w: Walk, p: nat)
    requires w.i < |w.vs| == |w.moved| && p == First(Without(w.vs, w.i), w.vs[w.i]) && p < |w.vs|
    requires var s := w.vs[w.i]; !s.Hollow() && s.offset < w.rc && s.End() < w.rc
    ensures Turn(w).Some? <==> !(p < |w.vs| - 1 && w.vs[w.i].End() >= Without(w.vs, w.i)[p].offset)
    ensures Turn(w).Some? ==>
              var w' := Turn(w).value;
              w'.vs == With(Without(w.vs, w.i), p, w.vs[w.i]) && w'.i == (if p <= w.i then w.i + 1 else w.i) && w'.rc == w.rc
  {
  }

  // Moves such a section; the walk goes on with the one behind it.
  method MoveSection(list: Head<Section>, s: Node<Section>, ghost w: Walk) returns (ok: bool)
    requires At(list, w, s) && !s.value.Hollow() && s.value.offset < w.rc && s.value.End() < w.rc
    modifies list, list.Elems`next
    ensures ok <==> Turn(w).Some?
    ensures ok ==> At(list, Turn(w).value, old(s.next)) && Turn(w).value.rc == w.rc && multiset(list.Elems) == multiset(old(list.Elems))
  {
    hide Values, First, SettledAt, Turn, With, Without;
    ghost var nodes, i := list.Elems, w.i;
    ValuesAt(nodes);
    NextOf(list, i);
    ghost var p;
    ok, p := Relink(list, s, i);
    MovingTurn(w, p);
    if ok {
      TurnSound(w);
      ValuesMoved(nodes, i, p);
      MovedMultiset(nodes, i, p, s);
      if i + 1 < |nodes| {
        MovedAt(nodes, i, p, s, if p <= i then i + 1 else i);
      }
    }
  }

  // One turn of the loop, s being the next section.
  method TakeTurn(list: Head<Section>, s: Node<Section>, rc: nat, ghost w: Walk) returns (ok: bool, rc': nat, ts: Node?<Section>)
    requires At(list, w, s) && w.rc == rc
    modifies list, list.Elems`next
    ensures ok <==> Turn(w).Some?
    ensures ok ==> At(list, Turn(w).value, ts) && Turn(w).value.rc == rc' && multiset(list.Elems) == multiset(old(list.Elems))
    ensures ok && (s.value.Hollow() || s.value.offset >= rc) ==> list.Elems == old(list.Elems)
  {
    hide Values, First, SettledAt, With, Without;
    ValuesAt(list.Elems);
    NextOf(list, w.i);
    ts := s.next;
    ok, rc' := true, rc;
    if !s.value.Hollow() {
      if s.value.offset < rc {
        if s.value.End() >= rc {
          ok := false;
          return;
        }
        ok := MoveSection(list, s, w);
        return;
      } else {
        rc' := s.value.End();
      }
    }
    TurnSound(w);
  }

  lemma Begin(list: Head<Section>, rc: nat)
    requires list.Valid()
    ensures At(list, Start(Values(list.Elems), rc), list.first)
  {
    hide Values;
    ValuesAt(list.Elems);
  }

  // A section in its place stays there.
  lemma {:induction false} InOrderTurn(w: Walk, rc0: nat)
    requires w.i < |w.vs| == |w.moved| && InOrder(w.vs, rc0) && w.rc == MaxEnd(w.vs[..w.i], rc0)
    ensures w.vs[w.i].Hollow() || w.vs[w.i].offset >= w.rc
    ensures Turn(w).Some? && Turn(w).value == w.(i := w.i + 1, rc := MaxEnd(w.vs[..w.i + 1], rc0))
  {
    hide InOrder;
    InOrderAt(w.vs, w.i, rc0);
    assert w.vs[..w.i + 1][..w.i] == w.vs[..w.i];
  }

  // The pass over the list.
  method OrderSections(list: Head<Section>, rc0: nat) returns (ok: bool, rc: nat)
    requires list.Valid()
    modifies list, list.Elems`next
    ensures ok <==> Sorted(old(Values(list.Elems)), rc0).Some?
    ensures ok ==> list.Valid() && multiset(list.Elems) == multiset(old(list.Elems))
    ensures ok ==> Sorted(old(Values(list.Elems)), rc0) == Some((Values(list.Elems), rc))
    ensures InOrder(old(Values(list.Elems)), rc0) ==> ok && list.Elems == old(list.Elems)
  {
    hide Values, SettledAt, Turn, Unmoved, InOrder, MaxEnd;
    ghost var nodes, ss := list.Elems, Values(list.Elems);
    ghost var w := Start(ss, rc0);
    ok, rc := true, rc0;
    var s := list.first;
    Begin(list, rc0);
    assert ss[..0] == [];
    MaxEndStart(rc0);
    while s != null
      invariant At(list, w, s) && w.rc == rc && multiset(list.Elems) == multiset(nodes)
      invariant Pass(w) == Sorted(ss, rc0)
      invariant InOrder(ss, rc0) ==> list.Elems == nodes && w.rc == MaxEnd(ss[..w.i], rc0)
      decreases Unmoved(w.moved), |w.vs| - w.i
    {
      SameNodes(list.Elems, nodes);
      ValuesAt(list.Elems);
      if InOrder(ss, rc0) {
        InOrderTurn(w, rc0);
      }
      ok, rc, s := TakeTurn(list, s, rc, w);
      if !ok {
        return;
      }
      TurnSound(w);
      w := Turn(w).value;
    }
  }

  // Lays out the sections: places first, then their order in the list.
  method ResyncSections(e: Elf, list: Head<Section>, rc: nat) returns (ok: bool, end: nat)
    requires list.Valid() && Ready(Values(list.Elems))
    modifies list, list.Elems
    ensures var laid := Extents(e, old(Values(list.Elems)), rc);
            (ok <==> laid.Some? && Sorted(laid.value.0, rc).Some?) &&
            (ok ==> (Values(old(list.Elems)), end) == laid.value && Sorted(laid.value.0, rc) == Some((Values(list.Elems), end))) &&
            (laid.Some? && InOrder(laid.value.0, rc) ==> ok && list.Elems == old(list.Elems))
    ensures ok ==> list.Valid() && multiset(list.Elems) == multiset(old(list.Elems)) && end == MaxEnd(Values(old(list.Elems)), rc)
    ensures var laid := Extents(e, old(Values(list.Elems)), rc);
            laid.Some? && HollowClear(laid.value.0) ==>
              (ok <==> Admissible(laid.value.0, rc)) && (ok ==> Ascending(Values(list.Elems)))
  {
    hide Values, Extents, Admissible, Ascending, HollowClear, Ready, InOrder, MaxEnd, Sorted;
    ghost var nodes, ss := list.Elems, Values(list.Elems);
    var nrc;
    ok, nrc := ComputeExtents(e, list, rc);
    if !ok {
      return false, rc;
    }
    ExtentsFacts(e, ss, rc);
    ghost var laid := Extents(e, ss, rc).value.0;
    assert Values(nodes) == laid;
    if HollowClear(laid) {
      SortedIff(laid, rc);
    }
    ok, end := OrderSections(list, rc);
    if ok {
      SortedFacts(laid, rc);
      assert nrc == end;
    }
  }
}
