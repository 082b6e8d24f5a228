/**
 What belongs into an ELF file and where: the sections as their layout leaves them, and the
 regions of the file that the headers, the sections and the tables take.
 */
module ElfRegions {
  import opened Options
  import opened Arithmetic
  import opened ElfTypes
  import opened ElfSections
  import opened ElfImage

  // ----- What the caller provides -----

  // Bytes of a descriptor in the file.
  function FileLen(c: ElfClass, d: Data): nat {
    d.size / MSize(d.dtype, c) * FSize(d.dtype, c)
  }

  // A section the writer can translate: its type is known, its data are whole objects of that
  // type, and a place that is given, or an alignment, suits the type.
  ghost predicate Loadable(e: Elf, s: Section) {
    s.Hollow() ||
    (TypeOfSection(s.shType).Some? &&
     var t := TypeOfSection(s.shType).value;
     && (forall d :: d in s.data ==> d.dtype == t && d.size % MSize(t, e.cls) == 0)
     && (if !s.dirty then s.shOffset % FAlign(t, e.cls) == 0 && forall d :: d in s.data ==> d.off + FileLen(e.cls, d) <= s.shSize
         else if e.layout then s.shOffset % FAlign(t, e.cls) == 0
         else if s.data == [] then s.shAlign % FAlign(t, e.cls) == 0
         else forall d :: d in s.data ==> FAlign(t, e.cls) <= d.align))
  }

  // ----- Sections after they are laid out -----

  // What the writer relies on: whole objects inside the section, at its alignment.
  ghost predicate Fit(e: Elf, s: Section) {
    s.Hollow() ||
    (TypeOfSection(s.shType).Some? && s.size == s.shSize &&
     var t := TypeOfSection(s.shType).value;
     && s.offset % FAlign(t, e.cls) == 0
     && forall d :: d in s.data ==>
          && d.dtype == t && d.size % MSize(t, e.cls) == 0 && d.off + FileLen(e.cls, d) <= s.size
          && (s.dirty && !e.layout ==> d.off % FAlign(t, e.cls) == 0))
  }

  // The data lie one behind the other.
  ghost predicate DataInOrder(c: ElfClass, s: Section) {
    s.Hollow() || forall k, l :: 0 <= k < l < |s.data| && FileLen(c, s.data[k]) > 0 ==> s.data[k].off + FileLen(c, s.data[k]) <= s.data[l].off
  }

  lemma FileLenAtMost(c: ElfClass, d: Data)
    ensures FileLen(c, d) <= d.size
  {
    hide FSize, MSize;
    ShrunkFits(d.size, MSize(d.dtype, c), FSize(d.dtype, c));
  }

  // Whole objects take the file size of one for the memory size of one.
  lemma FileLenExact(c: ElfClass, d: Data)
    requires d.size % MSize(d.dtype, c) == 0
    ensures FileLen(c, d) * MSize(d.dtype, c) == d.size * FSize(d.dtype, c)
  {
    hide FSize, MSize;
    var n, m, f := d.size / MSize(d.dtype, c), MSize(d.dtype, c), FSize(d.dtype, c);
    assert d.size == n * m;
    assert n * f * m == n * m * f;
  }

  // Descriptors placed by the library: aligned, one behind the other, inside the section.
  lemma {:induction false} PlaceDataLaid(align: nat, data: seq<Data>, size: nat)
    requires data == [] || align >= 1
    ensures var r := PlaceData(align, data, size);
            && |r.0| == |data| && r.1 >= size
            && (forall i :: 0 <= i < |data| ==>
                 && r.0[i] == data[i].(off := r.0[i].off) && r.0[i].off % align == 0
                 && size <= r.0[i].off && r.0[i].off + r.0[i].size <= r.1)
            && (forall i, j :: 0 <= i < j < |data| ==> r.0[i].off + r.0[i].size <= r.0[j].off)
  {
    if data != [] {
      var off := RoundUp(size, align);
      PlaceDataLaid(align, data[1..], off + data[0].size);
    }
  }

  // An accepted section alignment is a power of two and at least that of each descriptor.
  lemma {:induction false} ScnAlignFacts(e: Elf, t: ElfType, shAlign: nat, data: seq<Data>, max: nat)
    requires shAlign >= 1 && ScnAlign(e, t, shAlign, data, max).Some?
    requires max == 0 || (IsPow2(max) && shAlign <= max)
    ensures var a := ScnAlign(e, t, shAlign, data, max).value;
            a >= max && (a == 0 || (IsPow2(a) && shAlign <= a)) && (data != [] ==> a > 0) &&
            forall i :: 0 <= i < |data| ==> data[i].dtype == t && data[i].align <= a && IsPow2(data[i].align)
  {
    if data != [] {
      var d := data[0];
      MultipleAtLeast(d.align, shAlign);
      ScnAlignFacts(e, t, shAlign, data[1..], Max(max, d.align));
    }
  }

  // Laying out a loadable section leaves it fit for writing.
  lemma ExtentFit(e: Elf, s: Section, rc: nat)
    requires Loadable(e, s) && Ready([s]) && Extent(e, s, rc).Some?
    ensures Fit(e, Extent(e, s, rc).value.0)
    ensures s.dirty && !e.layout ==> DataInOrder(e.cls, Extent(e, s, rc).value.0)
  {
    hide FSize, MSize, FAlign, PlaceData, ScnAlign, IsPow2, RoundUp, DataEnd;
    assert [s][0] == s;
    if !s.Hollow() && s.dirty {
      if e.layout {
        GivenFit(e, s);
      } else if s.data == [] {
        EmptyFit(e, s, rc);
      } else {
        LibraryFit(e, s, rc);
      }
    }
  }

  lemma {:induction false} DataEndBounds(data: seq<Data>, size: nat, i: nat)
    ensures DataEnd(data, size) >= size
    ensures i < |data| ==> data[i].off + data[i].size <= DataEnd(data, size)
  {
    if data != [] {
      DataEndBounds(data[1..], Max(size, data[0].off + data[0].size), if i == 0 then 0 else i - 1);
    }
  }

  // Data that the application has placed.
  lemma GivenFit(e: Elf, s: Section)
    requires e.layout && s.dirty && !s.Hollow() && Loadable(e, s) && s.shSize >= DataEnd(s.data, 0)
    ensures Fit(e, s.(offset := s.shOffset, size := s.shSize))
  {
    hide FSize, MSize, FAlign, DataEnd, FileLen;
    forall d | d in s.data
      ensures d.off + FileLen(e.cls, d) <= s.shSize
    {
      var i :| 0 <= i < |s.data| && s.data[i] == d;
      DataEndBounds(s.data, 0, i);
      FileLenAtMost(e.cls, d);
    }
  }

  // Data that the library has placed.
  lemma LibraryFit(e: Elf, s: Section, rc: nat)
    requires !e.layout && s.dirty && !s.Hollow() && s.data != [] && Loadable(e, s) && Extent(e, s, rc).Some?
    ensures Fit(e, Extent(e, s, rc).value.0) && DataInOrder(e.cls, Extent(e, s, rc).value.0)
  {
    hide FSize, MSize, FAlign, PlaceData, ScnAlign, IsPow2, RoundUp, FileLen;
    var t := TypeOfSection(s.shType).value;
    var shAlign := if s.shAlign == 0 then FAlign(t, e.cls) else s.shAlign;
    var align := ScnAlign(e, t, shAlign, s.data, 0).value;
    ScnAlignFacts(e, t, shAlign, s.data, 0);
    PlaceDataLaid(align, s.data, 0);
    var s' := Extent(e, s, rc).value.0;
    forall k | 0 <= k < |s'.data|
      ensures s'.data[k].dtype == t && s'.data[k].size % MSize(t, e.cls) == 0
      ensures s'.offset % FAlign(t, e.cls) == 0 && s'.data[k].off % FAlign(t, e.cls) == 0
      ensures s'.data[k].off + FileLen(e.cls, s'.data[k]) <= s'.data[k].off + s'.data[k].size <= s'.size
    {
      assert s.data[k] in s.data;
      AlignedBy(t, e.cls, align, s'.offset, s'.data[k].off);
      FileLenAtMost(e.cls, s'.data[k]);
    }
    assert s'.offset % FAlign(t, e.cls) == 0 by {
      assert s'.data[0].dtype == t;
    }
    forall d | d in s'.data
      ensures d.dtype == t && d.size % MSize(t, e.cls) == 0 && d.off + FileLen(e.cls, d) <= s'.size && d.off % FAlign(t, e.cls) == 0
    {
      var k :| 0 <= k < |s'.data| && s'.data[k] == d;
    }
  }

  lemma EmptyFit(e: Elf, s: Section, rc: nat)
    requires !e.layout && s.dirty && !s.Hollow() && s.data == [] && Loadable(e, s) && Extent(e, s, rc).Some?
    ensures Fit(e, Extent(e, s, rc).value.0)
  {
    hide FSize, MSize, FAlign, IsPow2, RoundUp, FileLen;
    var f := FAlign(TypeOfSection(s.shType).value, e.cls);
    var shAlign := if s.shAlign == 0 then f else s.shAlign;
    assert shAlign % f == 0;
    DivisibleTrans(RoundUp(rc, shAlign), shAlign, f);
  }

  lemma {:induction false} AlignedBy(t: ElfType, c: ElfClass, align: nat, offset: nat, off: nat)
    requires IsPow2(align) && FAlign(t, c) <= align && offset % align == 0 && off % align == 0
    ensures offset % FAlign(t, c) == 0 && off % FAlign(t, c) == 0
  {
    assert IsPow2(FAlign(t, c)) by {
      assert IsPow2(1) && IsPow2(2) && IsPow2(4) && IsPow2(8);
    }
    Pow2Divides(FAlign(t, c), align);
    DivisibleTrans(offset, align, FAlign(t, c));
    DivisibleTrans(off, align, FAlign(t, c));
  }

  // ----- The regions of the file -----

  function DataRegion(c: ElfClass, j: nat, base: nat, d: Data, k: nat): Region {
    Region(base + d.off, FileLen(c, d), DataBytes(j, k))
  }

  // Regions of the first n descriptors of section number j.
  function DataRegions(c: ElfClass, j: nat, s: Section, n: nat): (rs: seq<Region>)
    requires n <= |s.data|
    ensures |rs| == n && forall k :: 0 <= k < n ==> rs[k] == DataRegion(c, j, s.offset, s.data[k], k)
  {
    seq(n, k requires 0 <= k < n => DataRegion(c, j, s.offset, s.data[k], k))
  }

  // A section without descriptors is copied from the file it was read from.
  function ScnRegions(c: ElfClass, j: nat, s: Section): seq<Region> {
    if s.Hollow() then []
    else if s.data == [] then [Region(s.offset, s.shSize, RawBytes(j))]
    else DataRegions(c, j, s, |s.data|)
  }

  // Regions of the first n sections.
  function ScnsRegions(c: ElfClass, ss: seq<Section>, n: nat): seq<Region>
    requires n <= |ss|
  {
    if n == 0 then [] else ScnsRegions(c, ss, n - 1) + ScnRegions(c, n - 1, ss[n - 1])
  }

  function HeaderRegions(c: ElfClass, nphdr: nat, phoff: nat): seq<Region> {
    [Region(0, FSize(Ehdr, c), EhdrBytes)] +
    if nphdr == 0 then [] else [Region(phoff, nphdr * FSize(Phdr, c), PhdrBytes)]
  }

  function ShdrRegion(c: ElfClass, shoff: nat, k: nat): Region {
    Region(shoff + k * FSize(Shdr, c), FSize(Shdr, c), ShdrBytes(k))
  }

  function ShdrRegions(c: ElfClass, shoff: nat, n: nat): (rs: seq<Region>)
    ensures |rs| == n && forall k :: 0 <= k < n ==> rs[k] == ShdrRegion(c, shoff, k)
  {
    seq(n, (k: nat) => ShdrRegion(c, shoff, k))
  }

  function PhdrEnd(c: ElfClass, nphdr: nat, phoff: nat): nat {
    if nphdr == 0 then FSize(Ehdr, c) else phoff + nphdr * FSize(Phdr, c)
  }

  // Everything that belongs into the file, in the order it is written.
  function AllRegions(c: ElfClass, nphdr: nat, phoff: nat, ss: seq<Section>, shoff: nat): seq<Region> {
    HeaderRegions(c, nphdr, phoff) + ScnsRegions(c, ss, |ss|) + ShdrRegions(c, shoff, |ss|)
  }

  // ----- Every byte has one source -----

  lemma OneEachConcat(a: seq<Region>, b: seq<Region>)
    requires OneEach(a) && OneEach(b) && forall i, k :: 0 <= i < |a| && 0 <= k < |b| ==> a[i].source != b[k].source
    ensures OneEach(a + b)
  {
  }

  predicate OfSections(source: Source, lo: nat, hi: nat) {
    (source.DataBytes? || source.RawBytes?) && lo <= source.scn < hi
  }

  lemma {:induction false} ScnsOneEach(c: ElfClass, ss: seq<Section>, n: nat)
    requires n <= |ss|
    ensures OneEach(ScnsRegions(c, ss, n)) && forall r :: r in ScnsRegions(c, ss, n) ==> OfSections(r.source, 0, n)
  {
    hide FileLen;
    if n > 0 {
      ScnsOneEach(c, ss, n - 1);
      OneEachConcat(ScnsRegions(c, ss, n - 1), ScnRegions(c, n - 1, ss[n - 1]));
    }
  }

  lemma AllOneEach(c: ElfClass, nphdr: nat, phoff: nat, ss: seq<Section>, shoff: nat)
    ensures OneEach(AllRegions(c, nphdr, phoff, ss, shoff))
  {
    hide ScnsRegions, FSize;
    var h, a, t := HeaderRegions(c, nphdr, phoff), ScnsRegions(c, ss, |ss|), ShdrRegions(c, shoff, |ss|);
    ScnsOneEach(c, ss, |ss|);
    assert forall i :: 0 <= i < |a| ==> a[i] in a;
    OneEachConcat(h, a);
    OneEachConcat(h + a, t);
  }

  // ----- Places of the regions -----

  ghost predicate StartsFrom(rs: seq<Region>, m: nat) {
    forall i :: 0 <= i < |rs| ==> m <= rs[i].at
  }

  lemma InFileOrderConcat(a: seq<Region>, b: seq<Region>, m: nat)
    requires InFileOrder(a) && InFileOrder(b) && Within(a, m) && StartsFrom(b, m)
    ensures InFileOrder(a + b)
  {
  }

  lemma WithinConcat(a: seq<Region>, b: seq<Region>, m: nat)
    requires Within(a, m) && Within(b, m)
    ensures Within(a + b, m)
  {
  }

  // The regions of a section lie inside it.
  lemma ScnPlaces(e: Elf, j: nat, s: Section)
    requires Fit(e, s)
    ensures s.Hollow() ==> ScnRegions(e.cls, j, s) == []
    ensures !s.Hollow() ==> Within(ScnRegions(e.cls, j, s), s.End()) && StartsFrom(ScnRegions(e.cls, j, s), s.offset)
    ensures DataInOrder(e.cls, s) ==> InFileOrder(ScnRegions(e.cls, j, s))
  {
    hide FSize, MSize, FAlign, FileLen;
    assert forall k :: 0 <= k < |s.data| ==> s.data[k] in s.data;
  }

  lemma {:induction false} ScnsWithin(e: Elf, ss: seq<Section>, n: nat, rc: nat)
    requires n <= |ss| && forall s :: s in ss ==> Fit(e, s)
    ensures Within(ScnsRegions(e.cls, ss, n), MaxEnd(ss[..n], rc))
  {
    hide MaxEnd, Fit, DataInOrder, ScnRegions;
    if n > 0 {
      assert ss[n - 1] in ss;
      ScnsWithin(e, ss, n - 1, rc);
      ScnPlaces(e, n - 1, ss[n - 1]);
      MaxEndStep(ss, n - 1, rc);
      WithinConcat(ScnsRegions(e.cls, ss, n - 1), ScnRegions(e.cls, n - 1, ss[n - 1]), MaxEnd(ss[..n], rc));
    }
  }

  // Sections in order, each with its data in order.
  lemma {:induction false} ScnsInOrder(e: Elf, ss: seq<Section>, n: nat, rc: nat)
    requires n <= |ss| && (forall s :: s in ss ==> Fit(e, s) && DataInOrder(e.cls, s)) && InOrder(ss, rc)
    ensures InFileOrder(ScnsRegions(e.cls, ss, n)) && StartsFrom(ScnsRegions(e.cls, ss, n), rc)
  {
    hide MaxEnd, Fit, DataInOrder, ScnRegions, InOrder;
    if n > 0 {
      assert ss[n - 1] in ss;
      ScnsInOrder(e, ss, n - 1, rc);
      ScnsWithin(e, ss, n - 1, rc);
      ScnPlaces(e, n - 1, ss[n - 1]);
      InOrderAt(ss, n - 1, rc);
      MaxEndAtLeast(ss[..n - 1], rc);
      InFileOrderConcat(ScnsRegions(e.cls, ss, n - 1), ScnRegions(e.cls, n - 1, ss[n - 1]), MaxEnd(ss[..n - 1], rc));
    }
  }

  // The header regions end where the sections may start.
  lemma HeaderPlaces(c: ElfClass, nphdr: nat, phoff: nat)
    requires nphdr > 0 ==> FSize(Ehdr, c) <= phoff
    ensures Within(HeaderRegions(c, nphdr, phoff), PhdrEnd(c, nphdr, phoff)) && InFileOrder(HeaderRegions(c, nphdr, phoff))
    ensures Cursor(0, HeaderRegions(c, nphdr, phoff)) == PhdrEnd(c, nphdr, phoff)
  {
    hide FSize;
  }

  lemma ShdrPlaces(c: ElfClass, shoff: nat, n: nat)
    ensures StartsFrom(ShdrRegions(c, shoff, n), shoff) && Within(ShdrRegions(c, shoff, n), shoff + n * FSize(Shdr, c))
    ensures InFileOrder(ShdrRegions(c, shoff, n)) && (n > 0 ==> Cursor(0, ShdrRegions(c, shoff, n)) == shoff + n * FSize(Shdr, c))
  {
    hide FSize;
    var rs := ShdrRegions(c, shoff, n);
    forall k | 0 <= k < n
      ensures shoff <= rs[k].at && rs[k].End() <= shoff + n * FSize(Shdr, c)
      ensures k == n - 1 ==> rs[k].End() == shoff + n * FSize(Shdr, c)
    {
      Multiples(k, n, FSize(Shdr, c));
    }
    forall k, l | 0 <= k < l < n
      ensures rs[k].End() <= rs[l].at
    {
      Multiples(k, l, FSize(Shdr, c));
    }
  }

  lemma Multiples(k: nat, l: nat, f: nat)
    requires k < l
    ensures 0 <= k * f <= k * f + f <= l * f && (l == k + 1 ==> k * f + f == l * f)
  {
    var m := l - k - 1;
    assert l * f == k * f + f + m * f;
  }

  // Room for everything: sections behind the headers, and the section header table behind them.
  ghost predicate Room(e: Elf, nphdr: nat, phoff: nat, ss: seq<Section>, shoff: nat, newsize: nat) {
    var hdr := PhdrEnd(e.cls, nphdr, phoff);
    && (forall s :: s in ss ==> Fit(e, s)) && (nphdr > 0 ==> FSize(Ehdr, e.cls) <= phoff)
    && if ss == [] then newsize == hdr
       else MaxEnd(ss, hdr) <= shoff && shoff % FAlign(Shdr, e.cls) == 0 && newsize == shoff + |ss| * FSize(Shdr, e.cls)
  }

  lemma AllWithin(e: Elf, nphdr: nat, phoff: nat, ss: seq<Section>, shoff: nat, newsize: nat)
    requires Room(e, nphdr, phoff, ss, shoff, newsize)
    ensures var rs := AllRegions(e.cls, nphdr, phoff, ss, shoff); Within(rs, newsize) && rs != [] && Cursor(0, rs) == newsize
  {
    hide ScnsRegions, MaxEnd, Fit, FSize, HeaderRegions, ShdrRegions, FAlign;
    var hdr := PhdrEnd(e.cls, nphdr, phoff);
    var h, a, t := HeaderRegions(e.cls, nphdr, phoff), ScnsRegions(e.cls, ss, |ss|), ShdrRegions(e.cls, shoff, |ss|);
    assert ss[..|ss|] == ss;
    ScnsWithin(e, ss, |ss|, hdr);
    HeaderPlaces(e.cls, nphdr, phoff);
    ShdrPlaces(e.cls, shoff, |ss|);
    MaxEndAtLeast(ss, hdr);
    NoRegions(e.cls, nphdr, phoff, shoff);
    if ss == [] {
      assert h + a + t == h;
    } else {
      WithinConcat(h, a, newsize);
      WithinConcat(h + a, t, newsize);
    }
  }

  lemma {:induction false} NoRegions(c: ElfClass, nphdr: nat, phoff: nat, shoff: nat)
    ensures ScnsRegions(c, [], 0) == [] && ShdrRegions(c, shoff, 0) == [] && HeaderRegions(c, nphdr, phoff) != []
  {
  }

  // Sections in order, each with its data in order, make up a file in order.
  lemma AllInOrder(e: Elf, nphdr: nat, phoff: nat, ss: seq<Section>, shoff: nat, newsize: nat)
    requires Room(e, nphdr, phoff, ss, shoff, newsize)
    requires InOrder(ss, PhdrEnd(e.cls, nphdr, phoff)) && forall s :: s in ss ==> DataInOrder(e.cls, s)
    ensures InFileOrder(AllRegions(e.cls, nphdr, phoff, ss, shoff))
  {
    hide ScnsRegions, MaxEnd, Fit, FSize, HeaderRegions, ShdrRegions, FAlign, DataInOrder, InOrder;
    var hdr := PhdrEnd(e.cls, nphdr, phoff);
    var h, a, t := HeaderRegions(e.cls, nphdr, phoff), ScnsRegions(e.cls, ss, |ss|), ShdrRegions(e.cls, shoff, |ss|);
    assert ss[..|ss|] == ss;
    ScnsWithin(e, ss, |ss|, hdr);
    ScnsInOrder(e, ss, |ss|, hdr);
    HeaderPlaces(e.cls, nphdr, phoff);
    ShdrPlaces(e.cls, shoff, |ss|);
    MaxEndAtLeast(ss, hdr);
    InFileOrderConcat(h, a, hdr);
    if ss == [] {
      NoRegions(e.cls, nphdr, phoff, shoff);
      assert h + a + t == h;
    } else {
      var m := MaxEnd(ss, hdr);
      WithinConcat(h, a, m);
      InFileOrderConcat(h + a, t, m);
    }
  }

  // Contents that start inside the headers, which the layout can accept, overwrite them.
  lemma {:induction false} HeadersOverwritten(c: ElfClass, nphdr: nat, phoff: nat, ss: seq<Section>, shoff: nat, i: nat)
    requires i < |ScnsRegions(c, ss, |ss|)| && ScnsRegions(c, ss, |ss|)[i].at < PhdrEnd(c, nphdr, phoff)
    requires nphdr > 0 ==> FSize(Ehdr, c) <= phoff
    ensures !InFileOrder(AllRegions(c, nphdr, phoff, ss, shoff))
  {
    hide ScnsRegions, FSize;
    var h, rs := HeaderRegions(c, nphdr, phoff), AllRegions(c, nphdr, phoff, ss, shoff);
    if nphdr > 0 {
      Multiples(0, nphdr, FSize(Phdr, c));
    }
    assert rs[|h| - 1] == h[|h| - 1] && rs[|h| + i] == ScnsRegions(c, ss, |ss|)[i];
  }
}
