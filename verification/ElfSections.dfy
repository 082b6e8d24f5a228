/**
 Laying out the sections of an ELF object: computing the extent of each section, finding the
 place of a section in the list, and what becomes of sections placed one after the other.
 */
module ElfSections {
  import opened Options
  import opened Arithmetic
  import opened ElfTypes
  import opened Stailq

  // One data descriptor of a section.
  datatype Data = Data(dtype: ElfType, version: nat, align: nat, off: nat, size: nat)

  datatype Section = Section(shType: nat, shAlign: nat, shEntsize: nat, shOffset: nat, shSize: nat,
                             dirty: bool, data: seq<Data>, offset: nat, size: nat) {
    // Occupies no space in the file.
    predicate Hollow() { shType == SHT_NULL || shType == SHT_NOBITS }

    function End(): nat { offset + size }
  }

  // What the layout depends on besides the sections; `layout` is the application's ELF_F_LAYOUT.
  datatype Elf = Elf(cls: ElfClass, version: nat, layout: bool)

  // ----- Extent of one section -----

  // The largest alignment of the descriptors, or None if one of them is unacceptable.
  function ScnAlign(e: Elf, t: ElfType, shAlign: nat, data: seq<Data>, max: nat): Option<nat>
    requires shAlign >= 1
  {
    if data == [] then Some(max)
    else
      var d := data[0];
      if d.dtype != t || d.version != e.version || d.align % shAlign != 0 || !IsPow2(d.align) then None
      else ScnAlign(e, t, shAlign, data[1..], Max(max, d.align))
  }

  // Descriptors one after the other, each at a multiple of `align`, and where they end.
  function PlaceData(align: nat, data: seq<Data>, size: nat): (r: (seq<Data>, nat))
    requires data == [] || align >= 1
    ensures |r.0| == |data| && r.1 >= size
  {
    if data == [] then ([], size)
    else
      var off := RoundUp(size, align);
      var (rest, end) := PlaceData(align, data[1..], off + data[0].size);
      ([data[0].(off := off)] + rest, end)
  }

  // Where descriptors placed by the application end.
  function DataEnd(data: seq<Data>, size: nat): nat {
    if data == [] then size
    else DataEnd(data[1..], Max(size, data[0].off + data[0].size))
  }

  function EntrySize(entsize: nat, fsize: nat): nat {
    if entsize != 0 then entsize else if fsize == 1 then 0 else fsize
  }

  // The section with its extent filled in and the new end of file, or None for an error.
  function Extent(e: Elf, s: Section, rc: nat): Option<(Section, nat)> {
    if s.Hollow() then Some((s, rc))
    else if !s.dirty then Some((s, Max(rc, s.shOffset + s.shSize)))
    else match TypeOfSection(s.shType)
      case None => None
      case Some(t) =>
        var shAlign := if s.shAlign == 0 then FAlign(t, e.cls) else s.shAlign;
        match ScnAlign(e, t, shAlign, s.data, 0)
        case None => None
        case Some(align) =>
          if e.layout then
            if align > shAlign || s.shOffset % shAlign != 0 || s.shSize < DataEnd(s.data, 0) then None
            else Some((s.(offset := s.shOffset, size := s.shSize), Max(rc, s.shOffset + s.shSize)))
          else
            ScnAlignPositive(e, t, shAlign, s.data, 0);
            var (data, size) := PlaceData(align, s.data, 0);
            var off := RoundUp(rc, Max(shAlign, align));
            var s' := s.(data := data, shAlign := Max(shAlign, align),
                         shEntsize := EntrySize(s.shEntsize, FSize(t, e.cls)),
                         shOffset := off, shSize := size, offset := off, size := size);
            Some((s', Max(rc, off + size)))
  }

  lemma {:induction false} ScnAlignPositive(e: Elf, t: ElfType, shAlign: nat, data: seq<Data>, max: nat)
    requires shAlign >= 1
    ensures var a := ScnAlign(e, t, shAlign, data, max);
            a.Some? ==> a.value >= max && (data != [] ==> a.value >= 1)
  {
    if data != [] {
      ScnAlignPositive(e, t, shAlign, data[1..], Max(max, data[0].align));
    }
  }

  // The extents of all sections in list order.
  function Extents(e: Elf, ss: seq<Section>, rc: nat): Option<(seq<Section>, nat)> {
    if ss == [] then Some(([], rc))
    else match Extent(e, ss[0], rc)
      case None => None
      case Some((s, rc')) =>
        match Extents(e, ss[1..], rc')
        case None => None
        case Some((rest, end)) => Some(([s] + rest, end))
  }

  // ----- Order of sections -----

  // The end of the last section, or rc if all end before it.
  function MaxEnd(ss: seq<Section>, rc: nat): (m: nat)
    ensures m >= rc
  {
    if ss == [] then rc
    else
      var s := ss[|ss| - 1];
      var m := MaxEnd(ss[..|ss| - 1], rc);
      if s.Hollow() then m else Max(m, s.End())
  }

  // Ascending and disjoint, leaving out sections that occupy no space.
  ghost predicate Ascending(ss: seq<Section>) {
    forall i, j :: 0 <= i < j < |ss| && !ss[i].Hollow() && !ss[j].Hollow() ==> ss[i].End() <= ss[j].offset
  }

  // Section s ends strictly before t starts, or the other way round.
  predicate Apart(s: Section, t: Section) {
    s.End() < t.offset || t.End() < s.offset
  }

  // Exactly the lists that the pass accepts: each section starts no earlier than everything
  // before it in the list ends, or else it lies strictly apart from everything before it and
  // ends before the end of the file so far.
  ghost predicate Admissible(ss: seq<Section>, rc: nat) {
    forall j :: 0 <= j < |ss| ==> AdmissibleAt(ss, j, rc)
  }

  ghost predicate AdmissibleAt(ss: seq<Section>, j: nat, rc: nat)
    requires j < |ss|
  {
    var m := MaxEnd(ss[..j], rc);
    ss[j].Hollow() || ss[j].offset >= m ||
    (ss[j].End() < m && forall i :: 0 <= i < j && !ss[i].Hollow() ==> Apart(ss[i], ss[j]))
  }

  // Already in order: every section starts no earlier than everything before it ends.
  ghost predicate InOrder(ss: seq<Section>, rc: nat) {
    forall j :: 0 <= j < |ss| ==> ss[j].Hollow() || ss[j].offset >= MaxEnd(ss[..j], rc)
  }

  lemma {:induction false} InOrderAt(ss: seq<Section>, j: nat, rc: nat)
    requires j < |ss|
    ensures InOrder(ss, rc) ==> ss[j].Hollow() || ss[j].offset >= MaxEnd(ss[..j], rc)
  {
  }

  // Sections that occupy space lie past the end of the headers.
  ghost predicate PastHeaders(ss: seq<Section>, rc: nat) {
    forall i :: 0 <= i < |ss| && !ss[i].Hollow() ==> ss[i].offset >= rc
  }

  lemma {:induction false} MaxEndStart(rc: nat)
    ensures MaxEnd([], rc) == rc
  {
  }

  lemma {:induction false} MaxEndAtLeast(ss: seq<Section>, rc: nat)
    ensures MaxEnd(ss, rc) >= rc
  {
  }

  lemma {:induction false} MaxEndStep(ss: seq<Section>, j: nat, rc: nat)
    requires j < |ss|
    ensures MaxEnd(ss[..j + 1], rc) == if ss[j].Hollow() then MaxEnd(ss[..j], rc) else Max(MaxEnd(ss[..j], rc), ss[j].End())
    ensures MaxEnd(ss[..j + 1], rc) <= MaxEnd(ss, rc)
  {
    assert ss[..j + 1][..j] == ss[..j];
    MaxEndPrefix(ss, j + 1, rc);
  }

  lemma {:induction false} MaxEndPrefix(ss: seq<Section>, n: nat, rc: nat)
    requires n <= |ss|
    ensures MaxEnd(ss[..n], rc) <= MaxEnd(ss, rc)
  {
    if n == |ss| {
      assert ss[..n] == ss;
    } else {
      assert ss[..|ss| - 1][..n] == ss[..n];
      MaxEndPrefix(ss[..|ss| - 1], n, rc);
    }
  }

  lemma {:induction false} MaxEndBounds(ss: seq<Section>, rc: nat, i: nat)
    requires i < |ss| && !ss[i].Hollow()
    ensures ss[i].End() <= MaxEnd(ss, rc)
  {
    if i < |ss| - 1 {
      MaxEndBounds(ss[..|ss| - 1], rc, i);
    }
  }

  // The end of the file is rc itself or the end of some section.
  lemma {:induction false} MaxEndAttained(ss: seq<Section>, rc: nat) returns (i: nat)
    ensures MaxEnd(ss, rc) > rc ==> i < |ss| && !ss[i].Hollow() && ss[i].End() == MaxEnd(ss, rc)
  {
    i := 0;
    if ss != [] {
      i := MaxEndAttained(ss[..|ss| - 1], rc);
      var s := ss[|ss| - 1];
      if !s.Hollow() && s.End() > MaxEnd(ss[..|ss| - 1], rc) {
        i := |ss| - 1;
      }
    }
  }

  // ----- Extents and the end of file -----

  lemma ExtentKeeps(e: Elf, s: Section, rc: nat)
    requires Extent(e, s, rc).Some?
    ensures var (s', rc') := Extent(e, s, rc).value;
            s'.shType == s.shType && s'.dirty == s.dirty && |s'.data| == |s.data| &&
            ((s.Hollow() || !s.dirty) ==> s' == s) &&
            (!s.Hollow() && s.dirty && e.layout ==> s'.offset == s.shOffset) &&
            (!s.Hollow() && s.dirty && !e.layout ==> s'.offset >= rc && rc' == s'.End()) &&
            (s.Hollow() ==> rc' == rc) &&
            (!s.Hollow() && (s.dirty || (s.offset == s.shOffset && s.size == s.shSize)) ==> rc' == Max(rc, s'.End()))
  {
  }

  // A section that has not been changed is where its header says.
  ghost predicate Ready(ss: seq<Section>) {
    forall i :: 0 <= i < |ss| && !ss[i].Hollow() && !ss[i].dirty ==> ss[i].offset == ss[i].shOffset && ss[i].size == ss[i].shSize
  }

  // Places that are given, by the file or by the application, lie past the headers.
  ghost predicate GivenPast(e: Elf, ss: seq<Section>, rc: nat) {
    forall i :: 0 <= i < |ss| && !ss[i].Hollow() && (!ss[i].dirty || e.layout) ==> ss[i].shOffset >= rc
  }

  lemma {:induction false} ExtentsStep(e: Elf, ss: seq<Section>, s: Section, rc: nat)
    ensures var all := Extents(e, ss + [s], rc); var prev := Extents(e, ss, rc);
            (all.Some? <==> prev.Some? && Extent(e, s, prev.value.1).Some?) &&
            (all.Some? ==> all.value == (prev.value.0 + [Extent(e, s, prev.value.1).value.0],
                                         Extent(e, s, prev.value.1).value.1))
  {
    if ss == [] {
      assert (ss + [s])[1..] == [];
      if Extent(e, s, rc).Some? {
        var x := Extent(e, s, rc).value.0;
        assert [x] + [] == [] + [x];
      }
    } else {
      assert (ss + [s])[1..] == ss[1..] + [s];
      if Extent(e, ss[0], rc).Some? {
        var (x, mid) := Extent(e, ss[0], rc).value;
        ExtentsStep(e, ss[1..], s, mid);
        if Extents(e, ss[1..] + [s], mid).Some? {
          var (rest, end) := Extents(e, ss[1..], mid).value;
          var y := Extent(e, s, end).value.0;
          assert [x] + (rest + [y]) == [x] + rest + [y];
        }
      }
    }
  }

  // The size that the first pass computes is the end of the last section.
  lemma {:induction false} ExtentsFacts(e: Elf, ss: seq<Section>, rc: nat)
    requires Ready(ss) && Extents(e, ss, rc).Some?
    ensures var (ss', end) := Extents(e, ss, rc).value;
            && |ss'| == |ss| && end == MaxEnd(ss', rc)
            && (forall i :: 0 <= i < |ss| ==> ss'[i].shType == ss[i].shType && (ss[i].Hollow() || !ss[i].dirty ==> ss'[i] == ss[i]))
            && (GivenPast(e, ss, rc) ==> PastHeaders(ss', rc))
  {
    hide Extent;
    if ss != [] {
      var n := |ss| - 1;
      var init, s := ss[..n], ss[n];
      assert ss == init + [s];
      ExtentsStep(e, init, s, rc);
      assert forall i :: 0 <= i < n ==> init[i] == ss[i];
      ExtentsFacts(e, init, rc);
      var (done, mid) := Extents(e, init, rc).value;
      var (s', end) := Extent(e, s, mid).value;
      ExtentKeeps(e, s, mid);
      assert (done + [s'])[..n] == done;
      assert GivenPast(e, ss, rc) ==> GivenPast(e, init, rc);
    }
  }

  // ----- The passes over the section list -----

  method ComputeSectionExtents(e: Elf, s: Node<Section>, rc: nat) returns (ok: bool, rc': nat)
    modifies s`value
    ensures var r := Extent(e, old(s.value), rc);
            if r.Some? then ok && s.value == r.value.0 && rc' == r.value.1
            else !ok && s.value == old(s.value)
  {
    var v := s.value;
    if v.Hollow() {
      return true, rc;
    }
    if !v.dirty {
      return true, if rc < v.shOffset + v.shSize then v.shOffset + v.shSize else rc;
    }
    var elftype := TypeOfSection(v.shType);
    if elftype.None? {
      return false, rc;
    }
    var shAlign := if v.shAlign == 0 then FAlign(elftype.value, e.cls) else v.shAlign;
    var align := SectionAlignment(e, elftype.value, shAlign, v.data);
    if align.None? {
      return false, rc;
    }
    ScnAlignPositive(e, elftype.value, shAlign, v.data, 0);
    var data, scnSize := SectionData(e.layout, align.value, v.data);
    var shOffset, shSize := v.shOffset, v.shSize;
    if e.layout {
      if align.value > shAlign || shOffset % shAlign != 0 || shSize < scnSize {
        return false, rc;
      }
    } else {
      if align.value > shAlign {
        shAlign := align.value;
      }
      shSize := scnSize;
      shOffset := RoundUp(rc, shAlign);
      s.value := v.(data := data, shAlign := shAlign, shEntsize := EntrySize(v.shEntsize, FSize(elftype.value, e.cls)),
                    shOffset := shOffset, shSize := shSize);
    }
    rc' := if rc < shOffset + shSize then shOffset + shSize else rc;
    s.value := s.value.(size := shSize, offset := shOffset);
    ok := true;
  }

  method SectionAlignment(e: Elf, t: ElfType, shAlign: nat, data: seq<Data>) returns (align: Option<nat>)
    requires shAlign >= 1
    ensures align == ScnAlign(e, t, shAlign, data, 0)
  {
    var max: nat, i := 0, 0;
    while i < |data|
      invariant 0 <= i <= |data|
      invariant ScnAlign(e, t, shAlign, data, 0) == ScnAlign(e, t, shAlign, data[i..], max)
    {
      var d := data[i];
      if d.dtype != t || d.version != e.version || d.align % shAlign != 0 || d.align == 0 || !IsPow2(d.align) {
        return None;
      }
      if d.align > max {
        max := d.align;
      }
      i := i + 1;
    }
    align := Some(max);
  }

  lemma {:induction false} PlaceNone(align: nat, size: nat)
    ensures PlaceData(align, [], size) == ([], size)
  {
  }

  lemma {:induction false} PlaceStep(align: nat, data: seq<Data>, i: nat, size: nat)
    requires i < |data| && align >= 1
    ensures var off := RoundUp(size, align);
            var (rest, end) := PlaceData(align, data[i + 1..], off + data[i].size);
            PlaceData(align, data[i..], size) == ([data[i].(off := off)] + rest, end)
  {
    assert data[i..][1..] == data[i + 1..];
  }

  method SectionData(layout: bool, align: nat, data: seq<Data>) returns (placed: seq<Data>, scnSize: nat)
    requires data == [] || align >= 1
    ensures if layout then placed == data && scnSize == DataEnd(data, 0)
            else (placed, scnSize) == PlaceData(align, data, 0)
  {
    hide RoundUp, PlaceData;
    placed, scnSize := data, 0;
    var i := 0;
    assert data[0..] == data && placed[..0] + PlaceData(align, data, 0).0 == PlaceData(align, data, 0).0;
    while i < |data|
      invariant 0 <= i <= |data| && |placed| == |data| && placed[i..] == data[i..]
      invariant layout ==> placed == data && DataEnd(data, 0) == DataEnd(data[i..], scnSize)
      invariant !layout ==> var rest := PlaceData(align, data[i..], scnSize);
                            PlaceData(align, data, 0) == (placed[..i] + rest.0, rest.1)
    {
      if layout {
        if data[i].off + data[i].size > scnSize {
          scnSize := data[i].off + data[i].size;
        }
      } else {
        ghost var before, rest := placed[..i], PlaceData(align, data[i..], scnSize).0;
        PlaceStep(align, data, i, scnSize);
        scnSize := RoundUp(scnSize, align);
        placed := placed[i := placed[i].(off := scnSize)];
        scnSize := scnSize + data[i].size;
        assert placed[..i + 1] == before + [placed[i]];
        assert placed[i + 1..] == data[i + 1..];
        assert before + rest == placed[..i + 1] + rest[1..];
      }
      i := i + 1;
    }
    PlaceNone(align, scnSize);
    assert data[i..] == [] && placed[..i] + [] == placed;
  }

  // Inserts a section before the first one that does not end strictly before it starts, unless
  // that one overlaps or touches it.
  method InsertSection(list: Head<Section>, s: Node<Section>) returns (ok: bool, ghost p: nat)
    requires list.Valid() && s !in list.Elems
    modifies list, s`next, list.Elems`next
    ensures list.Valid() && p <= |old(list.Elems)|
    ensures forall i :: 0 <= i < p ==> old(list.Elems)[i].value.End() < s.value.offset
    ensures p < |old(list.Elems)| ==> old(list.Elems)[p].value.End() >= s.value.offset
    ensures ok ==> list.Elems == old(list.Elems)[..p] + [s] + old(list.Elems)[p..]
    ensures ok <==> p == |old(list.Elems)| || s.value.End() < old(list.Elems)[p].value.offset
  {
    var smin, smax := s.value.offset, s.value.End();
    var prevt: Node?<Section> := null;
    var t := list.first;
    p := 0;
    while t != null
      invariant p <= |list.Elems|
      invariant t == if p < |list.Elems| then list.Elems[p] else null
      invariant prevt == if p == 0 then null else list.Elems[p - 1]
      invariant forall i :: 0 <= i < p ==> list.Elems[i].value.End() < smin
      decreases |list.Elems| - p
    {
      var tmin, tmax := t.value.offset, t.value.End();
      if tmax < smin {
        assert p + 1 < |list.Elems| ==> list.Elems[p].next == list.Elems[p + 1];
        prevt := t;
        t := t.next;
        p := p + 1;
      } else if smax < tmin {
        break;
      } else {
        return false, p;
      }
    }
    if prevt != null {
      list.InsertAfter(prevt, s, p - 1);
    } else {
      list.InsertHead(s);
    }
    ok := true;
  }

  ghost function Values(nodes: seq<Node<Section>>): (vs: seq<Section>)
    reads nodes`value
    ensures |vs| == |nodes|
  {
    if nodes == [] then [] else [nodes[0].value] + Values(nodes[1..])
  }

  lemma {:induction false} ValuesAt(nodes: seq<Node<Section>>)
    ensures forall i :: 0 <= i < |nodes| ==> Values(nodes)[i] == nodes[i].value
  {
    if nodes != [] {
      ValuesAt(nodes[1..]);
    }
  }

  // First pass: the extent of every section, in list order.
  method ComputeExtents(e: Elf, list: Head<Section>, rc: nat) returns (ok: bool, nrc: nat)
    requires list.Valid()
    modifies list.Elems`value
    ensures list.Valid() && list.Elems == old(list.Elems)
    ensures var r := Extents(e, old(Values(list.Elems)), rc);
            (ok <==> r.Some?) && (ok ==> Values(list.Elems) == r.value.0 && nrc == r.value.1)
  {
    hide Extent, Extents, Values;
    ghost var nodes, ss := list.Elems, Values(list.Elems);
    ValuesAt(nodes);
    ghost var done: seq<Section> := [];
    nrc := rc;
    var s := list.first;
    ghost var i := 0;
    assert ss[..0] == [];
    NoExtents(e, rc);
    while s != null
      invariant 0 <= i <= |nodes| && list.Elems == nodes && list.Valid()
      invariant s == if i < |nodes| then nodes[i] else null
      invariant |done| == i && Extents(e, ss[..i], rc) == Some((done, nrc))
      invariant forall j :: 0 <= j < i ==> nodes[j].value == done[j]
      invariant forall j :: i <= j < |nodes| ==> nodes[j].value == ss[j]
      decreases |nodes| - i
    {
      assert i + 1 < |nodes| ==> nodes[i].next == nodes[i + 1];
      ExtentsAt(e, ss, i, rc, done, nrc);
      ok, nrc := ComputeSectionExtents(e, s, nrc);
      if !ok {
        return;
      }
      done := done + [s.value];
      s := s.next;
      i := i + 1;
    }
    ValuesAt(nodes);
    assert ss[..i] == ss && Values(nodes) == done;
    ok := true;
  }

  // The next section extends the extents computed so far, or fails the whole list.
  lemma {:induction false} ExtentsAt(e: Elf, ss: seq<Section>, i: nat, rc: nat, done: seq<Section>, nrc: nat)
    requires i < |ss| && Extents(e, ss[..i], rc) == Some((done, nrc))
    ensures match Extent(e, ss[i], nrc)
            case None => Extents(e, ss, rc).None?
            case Some((s, end)) => Extents(e, ss[..i + 1], rc) == Some((done + [s], end))
  {
    assert ss[..i + 1] == ss[..i] + [ss[i]];
    ExtentsStep(e, ss[..i], ss[i], rc);
    if Extent(e, ss[i], nrc).None? {
      assert ss == ss[..i + 1] + ss[i + 1..];
      ExtentsPrefix(e, ss[..i + 1], ss[i + 1..], rc);
    }
  }

  lemma {:induction false} NoExtents(e: Elf, rc: nat)
    ensures Extents(e, [], rc) == Some(([], rc))
  {
  }

  lemma {:induction false} ExtentsPrefix(e: Elf, a: seq<Section>, b: seq<Section>, rc: nat)
    requires Extents(e, a, rc).None?
    ensures Extents(e, a + b, rc).None?
  {
    assert (a + b)[1..] == a[1..] + b;
    if Extent(e, a[0], rc).Some? {
      ExtentsPrefix(e, a[1..], b, Extent(e, a[0], rc).value.1);
    }
  }

  // ----- Second pass: order -----

  // a holds the same sections as b, in some order.
  ghost predicate SameMembers<T(!new)>(a: seq<T>, b: seq<T>) {
    forall x :: x in a <==> x in b
  }

  // The first section that does not end before s starts.
  function First(pv: seq<Section>, s: Section): (p: nat)
    ensures p <= |pv| && forall k :: 0 <= k < p ==> pv[k].End() < s.offset
    ensures p < |pv| ==> pv[p].End() >= s.offset
  {
    if pv == [] || pv[0].End() >= s.offset then 0 else 1 + First(pv[1..], s)
  }

  // One step of the pass: pv are the sections dealt with, m is the end of file so far.
  function PlaceOne(pv: seq<Section>, m: nat, s: Section): Option<(seq<Section>, nat)> {
    if s.Hollow() then Some((pv + [s], m))
    else if s.offset >= m then Some((pv + [s], s.End()))
    else if s.End() >= m then None
    else
      var p := First(pv, s);
      if p == |pv| || s.End() < pv[p].offset then Some((pv[..p] + [s] + pv[p..], m)) else None
  }

  // The order that the pass gives to the sections, and the end of file.
  function Ordered(ss: seq<Section>, rc: nat): Option<(seq<Section>, nat)> {
    if ss == [] then Some(([], rc))
    else
      match Ordered(ss[..|ss| - 1], rc)
      case None => None
      case Some((pv, m)) => PlaceOne(pv, m, ss[|ss| - 1])
  }

  lemma {:induction false} PlaceOneMembers(pv: seq<Section>, m: nat, s: Section, ss: seq<Section>, rc: nat)
    requires SameMembers(pv, ss) && m == MaxEnd(ss, rc) && PlaceOne(pv, m, s).Some?
    ensures var (pv', m') := PlaceOne(pv, m, s).value; SameMembers(pv', ss + [s]) && m' == MaxEnd(ss + [s], rc)
  {
    assert (ss + [s])[..|ss|] == ss;
    if !s.Hollow() && s.offset < m {
      SameAfterInsert(pv, ss, s, First(pv, s));
    }
  }

  // Nothing is lost, and the end of file is the end of the last section.
  lemma {:induction false} OrderedFacts(ss: seq<Section>, rc: nat)
    requires Ordered(ss, rc).Some?
    ensures var (pv, m) := Ordered(ss, rc).value; SameMembers(pv, ss) && m == MaxEnd(ss, rc)
  {
    hide PlaceOne;
    if ss != [] {
      var init, s := ss[..|ss| - 1], ss[|ss| - 1];
      assert ss == init + [s];
      OrderedFacts(init, rc);
      var (pv, m) := Ordered(init, rc).value;
      PlaceOneMembers(pv, m, s, init, rc);
    }
  }

  // A section is put back in among those dealt with.
  lemma {:induction false} FirstInside(ss: seq<Section>, rc: nat, s: Section)
    requires Ordered(ss, rc).Some? && rc <= s.offset
    ensures var (pv, m) := Ordered(ss, rc).value; s.offset < m ==> First(pv, s) < |pv|
  {
    hide First;
    OrderedFacts(ss, rc);
    var (pv, m) := Ordered(ss, rc).value;
    var i := MaxEndAttained(ss, rc);
    if s.offset < m {
      assert ss[i] in pv;
      var q :| 0 <= q < |pv| && pv[q] == ss[i];
    }
  }

  lemma {:induction false} OrderedPrefix(ss: seq<Section>, rc: nat, j: nat)
    requires Ordered(ss, rc).Some? && j <= |ss|
    ensures Ordered(ss[..j], rc).Some?
  {
    if j == |ss| {
      assert ss[..j] == ss;
    } else {
      OrderedPrefix(ss[..|ss| - 1], rc, j);
      assert ss[..|ss| - 1][..j] == ss[..j];
    }
  }

  // Sections listed in order stay where they are.
  lemma {:induction false} OrderedInOrder(ss: seq<Section>, rc: nat)
    requires InOrder(ss, rc)
    ensures Ordered(ss, rc) == Some((ss, MaxEnd(ss, rc)))
  {
    if ss != [] {
      var n := |ss| - 1;
      assert InOrder(ss[..n], rc) by {
        assert forall j :: 0 <= j < n ==> ss[..n][..j] == ss[..j] && ss[..n][j] == ss[j];
      }
      OrderedInOrder(ss[..n], rc);
      InOrderAt(ss, n, rc);
      assert ss == ss[..n] + [ss[n]];
    }
  }

  // ----- When the order is right -----

  // A section with contents that is listed behind everything before it, so it is not moved.
  ghost predicate Stays(ss: seq<Section>, k: nat, rc: nat) {
    k < |ss| && !ss[k].Hollow() && ss[k].offset >= MaxEnd(ss[..k], rc)
  }

  // Section i occupies no space and is listed before section k, which stays; section j has to be
  // moved, its search stops at section i, and it does not belong in front of section k.
  ghost predicate Misleads(ss: seq<Section>, rc: nat, i: nat, k: nat, j: nat) {
    && i < k < j < |ss| && ss[i].Hollow() && Stays(ss, k, rc) && !ss[j].Hollow() && ss[j].offset < MaxEnd(ss[..j], rc)
    && ss[j].offset <= ss[i].End() && ss[k].offset < ss[j].End()
  }

  ghost predicate NoneMisleads(ss: seq<Section>, rc: nat) {
    forall i: nat, k: nat, j: nat :: !Misleads(ss, rc, i, k, j)
  }

  // The place found for s is in front of everything that follows it in the file.
  ghost predicate Clear(pv: seq<Section>, m: nat, s: Section) {
    s.Hollow() || s.offset >= m || forall k :: First(pv, s) <= k < |pv| && !pv[k].Hollow() ==> s.End() <= pv[k].offset
  }

  // A successful pass leaves the sections ascending exactly when no section without space misleads
  // the search for the place of another.
  lemma {:induction false} OrderedAscendingIff(ss: seq<Section>, rc: nat)
    requires Ordered(ss, rc).Some?
    ensures Ascending(Ordered(ss, rc).value.0) <==> NoneMisleads(ss, rc)
  {
    hide Ascending, PlaceOne, NoneMisleads, Clear, MaxEnd;
    if ss == [] {
      NoneAscending(rc);
    } else {
      var n := |ss| - 1;
      var init, s := ss[..n], ss[n];
      assert ss == init + [s];
      AscendingStep(init, s, rc);
      OrderedAscendingIff(init, rc);
      MisleadsStep(init, s, rc);
      if Ascending(Ordered(init, rc).value.0) {
        ClearIff(init, s, rc);
      }
    }
  }

  lemma NoneAscending(rc: nat)
    ensures Ascending([]) && NoneMisleads([], rc)
  {
  }

  // Only the last section of a list can be misled anew.
  lemma MisleadsStep(init: seq<Section>, s: Section, rc: nat)
    ensures NoneMisleads(init + [s], rc) <==> NoneMisleads(init, rc) && forall i: nat, k: nat :: !Misleads(init + [s], rc, i, k, |init|)
  {
    hide MaxEnd;
    var ss := init + [s];
    forall i: nat, k: nat, j: nat | j < |init|
      ensures Misleads(ss, rc, i, k, j) <==> Misleads(init, rc, i, k, j)
    {
      if i < k < j {
        assert ss[..k] == init[..k] && ss[..j] == init[..j];
      }
    }
    if NoneMisleads(ss, rc) {
      forall i: nat, k: nat, j: nat
        ensures !Misleads(init, rc, i, k, j)
      {
        assert !Misleads(ss, rc, i, k, j);
      }
    }
  }

  // ----- Where the sections without space are -----

  // h is listed before x, which stays.
  ghost predicate ListedAt(ss: seq<Section>, rc: nat, h: Section, x: Section, i: nat, k: nat) {
    i < k && Stays(ss, k, rc) && ss[i] == h && ss[k] == x
  }

  // A section with contents behind one without space was listed behind it and stays, or was put
  // there because the other ends before it.
  ghost predicate Behind(pv: seq<Section>, ss: seq<Section>, rc: nat) {
    forall p, q :: 0 <= p < q < |pv| && pv[p].Hollow() && !pv[q].Hollow() ==>
      pv[p].End() < pv[q].offset || exists i: nat, k: nat :: ListedAt(ss, rc, pv[p], pv[q], i, k)
  }

  ghost predicate InTurn(pv: seq<Section>, h: Section, x: Section, p: nat, q: nat) {
    p < q < |pv| && pv[p] == h && pv[q] == x
  }

  // Sections that stay remain behind the sections without space listed before them.
  ghost predicate StillBehind(pv: seq<Section>, ss: seq<Section>, rc: nat) {
    forall h, x, i: nat, k: nat :: ListedAt(ss, rc, h, x, i, k) && h.Hollow() ==> exists p: nat, q: nat :: InTurn(pv, h, x, p, q)
  }

  lemma {:induction false} OrderedBehind(ss: seq<Section>, rc: nat)
    requires Ordered(ss, rc).Some?
    ensures Behind(Ordered(ss, rc).value.0, ss, rc) && StillBehind(Ordered(ss, rc).value.0, ss, rc)
  {
    hide MaxEnd, Behind, StillBehind, PlaceOne;
    if ss == [] {
      NothingBehind(rc);
    } else {
      var n := |ss| - 1;
      var init, s := ss[..n], ss[n];
      assert ss == init + [s];
      OrderedStep(init, s, rc);
      OrderedBehind(init, rc);
      OrderedFacts(init, rc);
      var (pv, m) := Ordered(init, rc).value;
      BehindStep(pv, init, s, rc, m);
      StillBehindStep(pv, init, s, rc, m);
    }
  }

  lemma NothingBehind(rc: nat)
    ensures Behind([], [], rc) && StillBehind([], [], rc)
  {
  }

  lemma ListedMore(ss: seq<Section>, s: Section, rc: nat, h: Section, x: Section, i: nat, k: nat)
    requires k < |ss|
    ensures ListedAt(ss + [s], rc, h, x, i, k) <==> ListedAt(ss, rc, h, x, i, k)
    ensures Stays(ss + [s], k, rc) <==> Stays(ss, k, rc)
  {
    hide MaxEnd;
    assert (ss + [s])[..k] == ss[..k];
  }

  lemma ListedLast(ss: seq<Section>, s: Section, rc: nat, h: Section) returns (i: nat)
    requires h in ss && !s.Hollow() && s.offset >= MaxEnd(ss, rc)
    ensures ListedAt(ss + [s], rc, h, s, i, |ss|)
  {
    hide MaxEnd;
    i :| 0 <= i < |ss| && ss[i] == h;
    assert (ss + [s])[..|ss|] == ss;
  }

  lemma {:induction false} BehindStep(pv: seq<Section>, ss: seq<Section>, s: Section, rc: nat, m: nat)
    requires Behind(pv, ss, rc) && SameMembers(pv, ss) && m == MaxEnd(ss, rc) && PlaceOne(pv, m, s).Some?
    ensures Behind(PlaceOne(pv, m, s).value.0, ss + [s], rc)
  {
    hide MaxEnd, ListedAt, First;
    var pv', f := PlaceOne(pv, m, s).value.0, if s.Hollow() || s.offset >= m then |pv| else First(pv, s);
    assert pv' == pv[..f] + [s] + pv[f..];
    forall p, q | 0 <= p < q < |pv'| && pv'[p].Hollow() && !pv'[q].Hollow() && pv'[p].End() >= pv'[q].offset
      ensures exists i: nat, k: nat :: ListedAt(ss + [s], rc, pv'[p], pv'[q], i, k)
    {
      if q == f {
        assert pv[p] in pv;
        var i := ListedLast(ss, s, rc, pv[p]);
      } else if p != f {
        var p', q' := if p < f then p else p - 1, if q < f then q else q - 1;
        assert pv'[p] == pv[p'] && pv'[q] == pv[q'];
        var i: nat, k: nat :| ListedAt(ss, rc, pv[p'], pv[q'], i, k);
        ListedInside(ss, rc, pv[p'], pv[q'], i, k);
        ListedMore(ss, s, rc, pv[p'], pv[q'], i, k);
      }
    }
  }

  lemma ListedInside(ss: seq<Section>, rc: nat, h: Section, x: Section, i: nat, k: nat)
    requires ListedAt(ss, rc, h, x, i, k)
    ensures k < |ss|
  {
  }

  lemma {:induction false} StillBehindStep(pv: seq<Section>, ss: seq<Section>, s: Section, rc: nat, m: nat)
    requires StillBehind(pv, ss, rc) && SameMembers(pv, ss) && m == MaxEnd(ss, rc) && PlaceOne(pv, m, s).Some?
    ensures StillBehind(PlaceOne(pv, m, s).value.0, ss + [s], rc)
  {
    hide MaxEnd, First;
    var pv', f := PlaceOne(pv, m, s).value.0, if s.Hollow() || s.offset >= m then |pv| else First(pv, s);
    assert pv' == pv[..f] + [s] + pv[f..];
    forall h, x, i: nat, k: nat | ListedAt(ss + [s], rc, h, x, i, k) && h.Hollow()
      ensures exists p: nat, q: nat :: InTurn(pv', h, x, p, q)
    {
      if k < |ss| {
        ListedMore(ss, s, rc, h, x, i, k);
        var p: nat, q: nat :| InTurn(pv, h, x, p, q);
        var p', q' := if p < f then p else p + 1, if q < f then q else q + 1;
        assert InTurn(pv', h, x, p', q');
      } else {
        assert (ss + [s])[..k] == ss && h in ss;
        var p: nat :| p < |pv| && pv[p] == h;
        assert InTurn(pv', h, x, p, |pv|);
      }
    }
  }

  // Section i misleads the search for the place of s, behind init, with respect to section k.
  ghost predicate MisleadsLast(init: seq<Section>, s: Section, rc: nat, m: nat, i: nat, k: nat) {
    && i < k < |init| && ListedAt(init, rc, init[i], init[k], i, k) && init[i].Hollow()
    && !s.Hollow() && s.offset < m && s.offset <= init[i].End() && init[k].offset < s.End()
  }

  lemma {:induction false} MisleadsMeans(init: seq<Section>, s: Section, rc: nat, i: nat, k: nat)
    ensures Misleads(init + [s], rc, i, k, |init|) <==> MisleadsLast(init, s, rc, MaxEnd(init, rc), i, k)
  {
    hide MaxEnd, Stays;
    var ss := init + [s];
    assert ss[..|init|] == init;
    if i < k < |init| {
      ListedMore(init, s, rc, init[i], init[k], i, k);
    }
  }

  // Among sections in ascending order the place found is clear exactly if nothing misleads.
  lemma {:induction false} ClearIff(init: seq<Section>, s: Section, rc: nat)
    requires Ordered(init + [s], rc).Some? && Ordered(init, rc).Some? && Ascending(Ordered(init, rc).value.0)
    ensures var (pv, m) := Ordered(init, rc).value;
            Clear(pv, m, s) <==> forall i: nat, k: nat :: !Misleads(init + [s], rc, i, k, |init|)
  {
    hide MaxEnd, First, Ordered, Misleads, MisleadsLast, PlaceOne, Behind, StillBehind, Clear;
    var ss, n := init + [s], |init|;
    var (pv, m) := Ordered(init, rc).value;
    OrderedStep(init, s, rc);
    OrderedFacts(init, rc);
    OrderedBehind(init, rc);
    if i: nat, k: nat :| Misleads(ss, rc, i, k, n) {
      MisleadsMeans(init, s, rc, i, k);
      NotClear(pv, m, init, s, rc, i, k);
    }
    if !Clear(pv, m, s) {
      var i, k := Misled(pv, m, init, s, rc);
      MisleadsMeans(init, s, rc, i, k);
    }
  }

  lemma NotClear(pv: seq<Section>, m: nat, init: seq<Section>, s: Section, rc: nat, i: nat, k: nat)
    requires StillBehind(pv, init, rc) && MisleadsLast(init, s, rc, m, i, k)
    ensures !Clear(pv, m, s)
  {
    hide MaxEnd, First;
    assert ListedAt(init, rc, init[i], init[k], i, k);
    var p: nat, q: nat :| InTurn(pv, init[i], init[k], p, q);
    assert First(pv, s) <= p;
  }

  lemma Misled(pv: seq<Section>, m: nat, init: seq<Section>, s: Section, rc: nat) returns (i: nat, k: nat)
    requires Ascending(pv) && Behind(pv, init, rc) && PlaceOne(pv, m, s).Some? && !Clear(pv, m, s)
    ensures MisleadsLast(init, s, rc, m, i, k)
  {
    hide MaxEnd, First;
    var p := First(pv, s);
    var q :| p <= q < |pv| && !pv[q].Hollow() && s.End() > pv[q].offset;
    assert s.End() < pv[p].offset;
    assert p < q && pv[p].Hollow();
    i, k :| ListedAt(init, rc, pv[p], pv[q], i, k);
  }

  lemma {:induction false} AscendingStep(init: seq<Section>, s: Section, rc: nat)
    requires Ordered(init + [s], rc).Some?
    ensures Ordered(init, rc).Some?
    ensures var (pv, m) := Ordered(init, rc).value;
            Ascending(Ordered(init + [s], rc).value.0) <==> Ascending(pv) && Clear(pv, m, s)
  {
    hide First, Ordered, Ascending;
    OrderedStep(init, s, rc);
    OrderedFacts(init, rc);
    var (pv, m) := Ordered(init, rc).value;
    if s.Hollow() || s.offset >= m {
      AscendingAppend(init, pv, m, s, rc);
    } else {
      AscendingInsert(pv, s, First(pv, s));
    }
  }

  lemma {:induction false} OrderedStep(init: seq<Section>, s: Section, rc: nat)
    ensures Ordered(init + [s], rc) == if Ordered(init, rc).None? then None else
              PlaceOne(Ordered(init, rc).value.0, Ordered(init, rc).value.1, s)
  {
    assert (init + [s])[..|init|] == init;
  }

  lemma {:induction false} AscendingAppend(ss: seq<Section>, pv: seq<Section>, m: nat, s: Section, rc: nat)
    requires SameMembers(pv, ss) && m == MaxEnd(ss, rc) && (s.Hollow() || s.offset >= m)
    ensures Ascending(pv + [s]) <==> Ascending(pv)
  {
    var all := pv + [s];
    assert forall k :: 0 <= k < |pv| ==> all[k] == pv[k];
    forall k | 0 <= k < |pv| && !pv[k].Hollow()
      ensures pv[k].End() <= m
    {
      assert pv[k] in ss;
      var i :| 0 <= i < |ss| && ss[i] == pv[k];
      MaxEndBounds(ss, rc, i);
    }
  }

  lemma AscendingInsert(pv: seq<Section>, s: Section, p: nat)
    requires !s.Hollow() && p <= |pv| && forall k :: 0 <= k < p ==> pv[k].End() < s.offset
    ensures Ascending(pv[..p] + [s] + pv[p..]) <==>
            Ascending(pv) && forall k :: p <= k < |pv| && !pv[k].Hollow() ==> s.End() <= pv[k].offset
  {
    if Ascending(pv[..p] + [s] + pv[p..]) {
      AscendingWithout(pv, s, p);
    }
    if Ascending(pv) && forall k :: p <= k < |pv| && !pv[k].Hollow() ==> s.End() <= pv[k].offset {
      AscendingWith(pv, s, p);
    }
  }

  lemma AscendingWithout(pv: seq<Section>, s: Section, p: nat)
    requires !s.Hollow() && p <= |pv| && Ascending(pv[..p] + [s] + pv[p..])
    ensures Ascending(pv) && forall k :: p <= k < |pv| && !pv[k].Hollow() ==> s.End() <= pv[k].offset
  {
    var all := pv[..p] + [s] + pv[p..];
    forall i, j | 0 <= i < j < |pv| && !pv[i].Hollow() && !pv[j].Hollow()
      ensures pv[i].End() <= pv[j].offset
    {
      var i', j' := if i < p then i else i + 1, if j < p then j else j + 1;
      assert all[i'] == pv[i] && all[j'] == pv[j];
    }
    forall k | p <= k < |pv| && !pv[k].Hollow()
      ensures s.End() <= pv[k].offset
    {
      assert all[k + 1] == pv[k] && all[p] == s;
    }
  }

  lemma AscendingWith(pv: seq<Section>, s: Section, p: nat)
    requires Ascending(pv) && p <= |pv| && forall k :: 0 <= k < p ==> pv[k].End() < s.offset
    requires forall k :: p <= k < |pv| && !pv[k].Hollow() ==> s.End() <= pv[k].offset
    ensures Ascending(pv[..p] + [s] + pv[p..])
  {
    var all := pv[..p] + [s] + pv[p..];
    forall i, j | 0 <= i < j < |all| && !all[i].Hollow() && !all[j].Hollow()
      ensures all[i].End() <= all[j].offset
    {
      var i', j' := if i < p then i else i - 1, if j < p then j else j - 1;
      assert (i == p || all[i] == pv[i']) && (j == p || all[j] == pv[j']) && all[p] == s;
    }
  }

  // Sections A, B and C in order and a section without space that lies behind a fifth one: that one
  // ends up in front of B, although it does not end before B starts.
  lemma {:induction false} HollowMisplaces(a: Section, h: Section, b: Section, c: Section, s: Section, rc: nat)
    requires !a.Hollow() && h.Hollow() && !b.Hollow() && !c.Hollow() && !s.Hollow()
    requires rc <= a.offset && a.End() <= b.offset && b.End() <= c.offset
    requires a.End() < s.offset && b.offset < s.End() && s.End() < c.End() && s.End() < h.offset
    ensures Ordered([a, h, b, c, s], rc) == Some(([a, s, h, b, c], c.End()))
    ensures !Ascending([a, s, h, b, c]) && !NoneMisleads([a, h, b, c, s], rc)
  {
    hide First, NoneMisleads;
    var four := [a, h, b, c];
    OrderedFour(a, h, b, c, rc);
    var all := four + [s];
    assert all == [a, h, b, c, s];
    OrderedStep(four, s, rc);
    assert First(four, s) == 1 by {
      assert four[0].End() < s.offset && four[1].End() >= s.offset;
    }
    assert four[..1] + [s] + four[1..] == [a, s, h, b, c];
    assert [a, s, h, b, c][1] == s && [a, s, h, b, c][3] == b;
    OrderedAscendingIff(all, rc);
  }

  // In particular it can lie inside B: the pass accepts two sections that overlap.
  lemma OverlapAccepted(a: Section, h: Section, b: Section, c: Section, s: Section)
    requires !a.Hollow() && h.Hollow() && !b.Hollow() && !c.Hollow() && !s.Hollow()
    requires (a.offset, a.End()) == (100, 110) && (h.offset, h.End()) == (500, 600) && (b.offset, b.End()) == (200, 300)
    requires (c.offset, c.End()) == (400, 450) && (s.offset, s.End()) == (250, 260)
    ensures Ordered([a, h, b, c, s], 64) == Some(([a, s, h, b, c], 450)) && b.offset < s.offset && s.End() < b.End()
  {
    HollowMisplaces(a, h, b, c, s, 64);
  }

  lemma {:induction false} OrderedFour(a: Section, h: Section, b: Section, c: Section, rc: nat)
    requires !a.Hollow() && h.Hollow() && !b.Hollow() && !c.Hollow()
    requires rc <= a.offset && a.End() <= b.offset && b.End() <= c.offset
    ensures Ordered([a, h, b, c], rc) == Some(([a, h, b, c], c.End()))
  {
    OrderedStep([], a, rc);
    assert [] + [a] == [a];
    OrderedStep([a], h, rc);
    assert [a] + [h] == [a, h];
    OrderedStep([a, h], b, rc);
    assert [a, h] + [b] == [a, h, b];
    OrderedStep([a, h, b], c, rc);
    assert [a, h, b] + [c] == [a, h, b, c];
  }

  lemma SameAfterInsert<T(!new)>(a: seq<T>, b: seq<T>, x: T, p: nat)
    requires SameMembers(a, b) && p <= |a|
    ensures SameMembers(a[..p] + [x] + a[p..], b + [x])
  {
    assert a == a[..p] + a[p..];
    forall y
      ensures y in a[..p] + [x] + a[p..] <==> y in b + [x]
    {
      assert y in a <==> y in a[..p] || y in a[p..];
    }
  }

  lemma {:induction false} ValuesConcat(a: seq<Node<Section>>, b: seq<Node<Section>>)
    ensures Values(a + b) == Values(a) + Values(b)
  {
    if a == [] {
      assert a + b == b;
    } else {
      assert (a + b)[1..] == a[1..] + b;
      ValuesConcat(a[1..], b);
    }
  }

  lemma {:induction false} ValuesInsert(nodes: seq<Node<Section>>, n: Node<Section>, p: nat)
    requires p <= |nodes|
    ensures Values(nodes[..p] + [n] + nodes[p..]) == Values(nodes)[..p] + [n.value] + Values(nodes)[p..]
  {
    hide Values;
    var a, b := nodes[..p], nodes[p..];
    assert nodes == a + b;
    ValuesConcat(a, b);
    ValuesConcat(a + [n], b);
    ValuesConcat(a, [n]);
    ValuesAt([n]);
    assert Values([n]) == [n.value];
  }

  // What one step of the pass may rely on and contributes.
  lemma {:induction false} PassStep(ss: seq<Section>, i: nat, rc: nat, pv: seq<Section>, m: nat)
    requires PastHeaders(ss, rc) && i < |ss| && Ordered(ss[..i], rc) == Some((pv, m))
    ensures Ordered(ss[..i + 1], rc) == PlaceOne(pv, m, ss[i])
    ensures PlaceOne(pv, m, ss[i]).None? ==> Ordered(ss, rc).None?
    ensures !ss[i].Hollow() && ss[i].offset < m ==> First(pv, ss[i]) < |pv|
    ensures InOrder(ss, rc) ==> ss[i].Hollow() || ss[i].offset >= m
  {
    hide Ordered, First, PlaceOne;
    assert ss[..i + 1] == ss[..i] + [ss[i]];
    OrderedStep(ss[..i], ss[i], rc);
    OrderedFacts(ss[..i], rc);
    InOrderAt(ss, i, rc);
    if !ss[i].Hollow() {
      FirstInside(ss[..i], rc, ss[i]);
    }
    if PlaceOne(pv, m, ss[i]).None? {
      NotOrdered(ss, i + 1, rc);
    }
  }

  lemma {:induction false} NotOrdered(ss: seq<Section>, n: nat, rc: nat)
    requires n <= |ss| && Ordered(ss[..n], rc).None?
    ensures Ordered(ss, rc).None?
  {
    if Ordered(ss, rc).Some? {
      OrderedPrefix(ss, rc, n);
    }
  }

  lemma {:induction false} NothingOrdered(rc: nat)
    ensures Values([]) == [] && Ordered([], rc) == Some(([], rc))
  {
  }

  // The pass rejects sections that do not overlap when they touch and are listed out of order.
  lemma TouchingRejected(a: Section, b: Section, rc: nat)
    requires !a.Hollow() && !b.Hollow() && rc <= b.offset && b.size > 0 && b.End() == a.offset && a.size > 0
    ensures Ascending([b, a]) && Admissible([b, a], rc)
    ensures !Admissible([a, b], rc)
  {
    assert [b, a][..0] == [] && [b, a][..1] == [b] && [a, b][..1] == [a];
    assert MaxEnd([], rc) == rc;
    assert [b][..0] == [] && [a][..0] == [];
    assert MaxEnd([b], rc) == b.End() && MaxEnd([a], rc) == a.End();
    assert !AdmissibleAt([a, b], 1, rc) by {
      assert [a, b][0] == a && [a, b][1] == b && !Apart([a, b][0], [a, b][1]);
    }
    assert AdmissibleAt([b, a], 0, rc) && AdmissibleAt([b, a], 1, rc);
  }
}
