/**
 What the layout of a section amounts to: which sections it accepts, and which place, size,
 alignment and entry size it gives them.
 */
module ElfExtents {
  import opened Options
  import opened Arithmetic
  import opened ElfTypes
  import opened ElfSections

  // The alignment that the section header asks for, else that of the section's type.
  function AskedAlign(e: Elf, s: Section): (a: nat)
    requires TypeOfSection(s.shType).Some?
    ensures a >= 1
  {
    if s.shAlign != 0 then s.shAlign else FAlign(TypeOfSection(s.shType).value, e.cls)
  }

  // Sections without contents and unchanged sections are taken as they are.  The data of others
  // have the type and version expected and alignments that are powers of two and multiples of the
  // alignment asked for; an application that does the layout itself keeps to that alignment and
  // makes room for the data.
  ghost predicate Acceptable(e: Elf, s: Section) {
    s.Hollow() || !s.dirty ||
    (TypeOfSection(s.shType).Some? &&
     var a := AskedAlign(e, s);
     && (forall d <- s.data ::
           d.dtype == TypeOfSection(s.shType).value && d.version == e.version && d.align % a == 0 && IsPow2(d.align))
     && (e.layout ==> s.shOffset % a == 0 && forall d <- s.data :: d.align <= a && d.off + d.size <= s.shSize))
  }

  // The least alignment that the section header and all its data ask for.
  ghost predicate IsAlignment(e: Elf, s: Section, a: nat)
    requires TypeOfSection(s.shType).Some?
  {
    && AskedAlign(e, s) <= a && (forall d <- s.data :: d.align <= a)
    && (a == AskedAlign(e, s) || exists d <- s.data :: d.align == a)
  }

  // Where the k-th of the data may start, if the first may start at `from`.
  function Before(data: seq<Data>, k: nat, from: nat): nat
    requires k <= |data|
  {
    if k == 0 then from else data[k - 1].off + data[k - 1].size
  }

  // The same data, each at the first multiple of the alignment behind the one before it.
  ghost predicate Packed(data: seq<Data>, placed: seq<Data>, a: nat, from: nat) {
    |placed| == |data| &&
    forall k :: 0 <= k < |data| ==>
      && placed[k] == data[k].(off := placed[k].off) && (a > 0 ==> placed[k].off % a == 0)
      && Before(placed, k, from) <= placed[k].off < Before(placed, k, from) + a
  }

  // What becomes of a section when the file has rc bytes before it.
  ghost predicate LaidOut(e: Elf, s: Section, rc: nat, s': Section) {
    if s.Hollow() || !s.dirty then s' == s
    else if e.layout then s' == s.(offset := s.shOffset, size := s.shSize)
    else
      TypeOfSection(s.shType).Some? &&
      var unit := FSize(TypeOfSection(s.shType).value, e.cls);
      && s'.shType == s.shType && s'.dirty
      && IsAlignment(e, s, s'.shAlign) && s'.shAlign > 0
      && rc <= s'.shOffset < rc + s'.shAlign && s'.shOffset % s'.shAlign == 0
      && Packed(s.data, s'.data, s'.shAlign, 0) && s'.shSize == Before(s'.data, |s'.data|, 0)
      && s'.offset == s'.shOffset && s'.size == s'.shSize
      && (s.shEntsize == 0 && unit > 1 ==> s'.shEntsize == unit)
      && (s.shEntsize != 0 || unit == 1 ==> s'.shEntsize == s.shEntsize)
  }

  // ----- Proof -----

  lemma {:induction false} AlignIff(e: Elf, t: ElfType, a: nat, data: seq<Data>, max: nat)
    requires a >= 1
    ensures var r := ScnAlign(e, t, a, data, max);
            && (r.Some? <==> forall d <- data :: d.dtype == t && d.version == e.version && d.align % a == 0 && IsPow2(d.align))
            && (r.Some? ==> max <= r.value && (forall d <- data :: d.align <= r.value) &&
                            (r.value == max || exists d <- data :: d.align == r.value))
  {
    hide IsPow2;
    if data != [] {
      AlignIff(e, t, a, data[1..], Max(max, data[0].align));
      assert forall d :: d in data <==> d == data[0] || d in data[1..];
    }
  }

  lemma {:induction false} DataEndIff(data: seq<Data>, size: nat, limit: nat)
    ensures DataEnd(data, size) <= limit <==> size <= limit && forall d <- data :: d.off + d.size <= limit
  {
    if data != [] {
      DataEndIff(data[1..], Max(size, data[0].off + data[0].size), limit);
      assert forall d :: d in data <==> d == data[0] || d in data[1..];
    }
  }

  // Exactly the acceptable sections get an extent.
  lemma AcceptedIff(e: Elf, s: Section, rc: nat)
    ensures Extent(e, s, rc).Some? <==> Acceptable(e, s)
  {
    hide ScnAlign, DataEnd, IsPow2, FAlign, FSize, PlaceData, RoundUp;
    if !s.Hollow() && s.dirty && TypeOfSection(s.shType).Some? {
      AlignIff(e, TypeOfSection(s.shType).value, AskedAlign(e, s), s.data, 0);
      DataEndIff(s.data, 0, s.shSize);
    }
  }

  lemma {:induction false} PlacedPacked(a: nat, data: seq<Data>, from: nat)
    requires data == [] || a >= 1
    ensures var (placed, end) := PlaceData(a, data, from);
            Packed(data, placed, a, from) && end == Before(placed, |placed|, from)
  {
    hide RoundUp, Packed;
    if data == [] {
      PackedNone(a, a, from);
    } else {
      var off := RoundUp(from, a);
      var next := off + data[0].size;
      PlacedPacked(a, data[1..], next);
      var (rest, end) := PlaceData(a, data[1..], next);
      PackedCons(data, rest, a, from, off);
    }
  }

  lemma PackedNone(a: nat, b: nat, from: nat)
    ensures PlaceData(a, [], from) == ([], from) && Packed([], [], b, from)
  {
  }

  lemma PackedCons(data: seq<Data>, rest: seq<Data>, a: nat, from: nat, off: nat)
    requires data != [] && a > 0 && from <= off < from + a && off % a == 0
    requires Packed(data[1..], rest, a, off + data[0].size)
    ensures var placed := [data[0].(off := off)] + rest;
            Packed(data, placed, a, from) && Before(placed, |placed|, from) == Before(rest, |rest|, off + data[0].size)
  {
    var placed, next := [data[0].(off := off)] + rest, off + data[0].size;
    forall k | 0 <= k < |data|
      ensures placed[k] == data[k].(off := placed[k].off) && placed[k].off % a == 0
      ensures Before(placed, k, from) <= placed[k].off < Before(placed, k, from) + a
    {
      if k > 0 {
        assert placed[k] == rest[k - 1] && data[1..][k - 1] == data[k];
        assert Before(placed, k, from) == Before(rest, k - 1, next);
      }
    }
  }

  // Alignments of data are multiples of the alignment asked for, so theirs is the larger one.
  lemma AlignWins(e: Elf, s: Section)
    requires TypeOfSection(s.shType).Some? && s.data != []
    requires ScnAlign(e, TypeOfSection(s.shType).value, AskedAlign(e, s), s.data, 0).Some?
    ensures ScnAlign(e, TypeOfSection(s.shType).value, AskedAlign(e, s), s.data, 0).value >= AskedAlign(e, s)
  {
    hide ScnAlign, IsPow2, FAlign;
    AlignIff(e, TypeOfSection(s.shType).value, AskedAlign(e, s), s.data, 0);
    var d := s.data[0];
    assert d in s.data;
    Pow2Positive(d.align);
    MultipleAtLeast(d.align, AskedAlign(e, s));
  }

  lemma Pow2Positive(n: nat)
    requires IsPow2(n)
    ensures n > 0
  {
  }

  // The layout gives a section what it asks for, at the first place that suits it.
  lemma ExtentLaid(e: Elf, s: Section, rc: nat)
    requires Extent(e, s, rc).Some?
    ensures var (s', rc') := Extent(e, s, rc).value;
            LaidOut(e, s, rc, s') && rc' == if s.Hollow() then rc else Max(rc, s'.shOffset + s'.shSize)
  {
    hide ScnAlign, DataEnd, IsPow2, FAlign, FSize, PlaceData, RoundUp, Packed;
    if !s.Hollow() && s.dirty && !e.layout {
      var t, a := TypeOfSection(s.shType).value, AskedAlign(e, s);
      AlignIff(e, t, a, s.data, 0);
      ScnAlignPositive(e, t, a, s.data, 0);
      var align := ScnAlign(e, t, a, s.data, 0).value;
      PlacedPacked(align, s.data, 0);
      if s.data == [] {
        PackedNone(align, Max(a, align), 0);
      } else {
        AlignWins(e, s);
      }
    }
  }

  // There is only one way to lay out a section.
  lemma {:induction false} LaidOutOnce(e: Elf, s: Section, rc: nat, x: Section, y: Section)
    requires LaidOut(e, s, rc, x) && LaidOut(e, s, rc, y)
    ensures x == y
  {
    hide FAlign, FSize;
    if !s.Hollow() && s.dirty && !e.layout {
      assert x.shAlign == y.shAlign;
      SamePlace(x.shOffset, y.shOffset, rc, x.shAlign);
      PackedOnce(s.data, x.data, y.data, x.shAlign, |s.data|);
      assert x.data == y.data;
    }
  }

  lemma SamePlace(x: nat, y: nat, from: nat, a: nat)
    requires a > 0 && from <= x < from + a && from <= y < from + a && x % a == 0 && y % a == 0
    ensures x == y
  {
    var d := x / a - y / a;
    assert x - y == d * a;
    MulSign(d, a);
  }

  lemma {:induction false} PackedOnce(data: seq<Data>, x: seq<Data>, y: seq<Data>, a: nat, n: nat)
    requires a > 0 && Packed(data, x, a, 0) && Packed(data, y, a, 0) && n <= |data|
    ensures forall k :: 0 <= k < n ==> x[k] == y[k]
  {
    if n > 0 {
      PackedOnce(data, x, y, a, n - 1);
      SamePlace(x[n - 1].off, y[n - 1].off, Before(x, n - 1, 0), a);
    }
  }

  // ----- All sections -----

  // Every section is laid out behind the end of those before it.
  ghost predicate AllLaidOut(e: Elf, before: seq<Section>, placed: seq<Section>, rc: nat) {
    |placed| == |before| && forall i :: 0 <= i < |before| ==> LaidOut(e, before[i], MaxEnd(placed[..i], rc), placed[i])
  }

  lemma {:induction false} ExtentsLaid(e: Elf, ss: seq<Section>, rc: nat)
    requires Ready(ss)
    ensures Extents(e, ss, rc).Some? <==> forall s <- ss :: Acceptable(e, s)
    ensures Extents(e, ss, rc).Some? ==> AllLaidOut(e, ss, Extents(e, ss, rc).value.0, rc)
  {
    hide Extent, LaidOut, Acceptable, MaxEnd;
    if ss != [] {
      var n := |ss| - 1;
      var init, s := ss[..n], ss[n];
      assert ss == init + [s];
      assert forall i :: 0 <= i < n ==> init[i] == ss[i];
      assert forall x :: x in ss <==> x in init || x == s;
      ExtentsStep(e, init, s, rc);
      ExtentsLaid(e, init, rc);
      if Extents(e, init, rc).Some? {
        var (done, mid) := Extents(e, init, rc).value;
        AcceptedIff(e, s, mid);
        if Extent(e, s, mid).Some? {
          ExtentLaid(e, s, mid);
          ExtentsFacts(e, init, rc);
          var placed := Extents(e, ss, rc).value.0;
          assert forall i :: 0 <= i <= n ==> placed[..i] == done[..i];
          assert done[..n] == done;
        }
      }
    }
  }
}
