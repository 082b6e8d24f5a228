/**
 Updating an ELF object: the pass that assigns every header, section and table its place, and the
 pass that writes the file image.
 */
module ElfUpdate {
  import opened Options
  import opened Arithmetic
  import opened ElfTypes
  import opened Stailq
  import opened ElfSections
  import opened ElfExtents
  import opened ElfOrder
  import opened ElfImage
  import opened ElfRegions

  // ----- Sections after the first pass -----

  lemma {:induction false} NoSections(e: Elf, rc: nat)
    ensures Extents(e, [], rc) == Some(([], rc))
  {
  }

  ghost predicate AllLoadable(e: Elf, ss: seq<Section>) {
    forall i :: 0 <= i < |ss| ==> Loadable(e, ss[i])
  }

  // Data whose places are given, by the file or by the application, are in order.
  ghost predicate GivenInOrder(e: Elf, ss: seq<Section>) {
    forall i :: 0 <= i < |ss| && (!ss[i].dirty || e.layout) ==> DataInOrder(e.cls, ss[i])
  }

  lemma ExtentInOrder(e: Elf, s: Section, rc: nat)
    requires Loadable(e, s) && Ready([s]) && Extent(e, s, rc).Some? && (!s.dirty || e.layout ==> DataInOrder(e.cls, s))
    ensures DataInOrder(e.cls, Extent(e, s, rc).value.0)
  {
    hide FSize, MSize, FAlign, PlaceData, ScnAlign, IsPow2, RoundUp, DataEnd, Fit, Loadable;
    ExtentFit(e, s, rc);
  }

  // Every section that has got its place can be written.
  lemma {:induction false} ExtentsFit(e: Elf, ss: seq<Section>, rc: nat)
    requires Ready(ss) && AllLoadable(e, ss) && Extents(e, ss, rc).Some?
    ensures forall s :: s in Extents(e, ss, rc).value.0 ==> Fit(e, s)
    ensures GivenInOrder(e, ss) ==> forall s :: s in Extents(e, ss, rc).value.0 ==> DataInOrder(e.cls, s)
  {
    hide Extent, Fit, Loadable, DataInOrder;
    NoSections(e, rc);
    if ss != [] {
      var n := |ss| - 1;
      var init, s := ss[..n], ss[n];
      assert ss == init + [s];
      assert forall i :: 0 <= i < n ==> init[i] == ss[i];
      assert [s][0] == s;
      ExtentsStep(e, init, s, rc);
      ExtentsFit(e, init, rc);
      var mid := Extents(e, init, rc).value.1;
      ExtentFit(e, s, mid);
      if GivenInOrder(e, ss) {
        ExtentInOrder(e, s, mid);
      }
    }
  }

  // In library layout a new section starts behind everything before it.
  lemma {:induction false} NewBehind(e: Elf, ss: seq<Section>, rc: nat, j: nat)
    requires !e.layout && Ready(ss) && Extents(e, ss, rc).Some? && j < |ss| && ss[j].dirty
    ensures var placed := Extents(e, ss, rc).value.0;
            |placed| == |ss| && (placed[j].Hollow() || placed[j].offset >= MaxEnd(placed[..j], rc))
  {
    hide Extent, MaxEnd;
    var n := |ss| - 1;
    var init, s := ss[..n], ss[n];
    assert ss == init + [s];
    assert forall i :: 0 <= i < n ==> init[i] == ss[i];
    ExtentsStep(e, init, s, rc);
    ExtentsFacts(e, init, rc);
    var (done, mid) := Extents(e, init, rc).value;
    ExtentKeeps(e, s, mid);
    var placed := Extents(e, ss, rc).value.0;
    if j == n {
      assert placed[..j] == done;
    } else {
      NewBehind(e, init, rc, j);
      assert placed[..j] == done[..j];
    }
  }

  // Sections that keep their places start behind everything before them.
  ghost predicate KeptInOrder(ss: seq<Section>, rc: nat) {
    forall j :: 0 <= j < |ss| && !ss[j].Hollow() && !ss[j].dirty ==> ss[j].offset >= MaxEnd(ss[..j], rc)
  }

  lemma {:induction false} DirtyKept(e: Elf, ss: seq<Section>, rc: nat)
    requires Extents(e, ss, rc).Some?
    ensures |Extents(e, ss, rc).value.0| == |ss| && forall j :: 0 <= j < |ss| ==> Extents(e, ss, rc).value.0[j].dirty == ss[j].dirty
  {
    if ss != [] {
      DirtyKept(e, ss[1..], Extent(e, ss[0], rc).value.1);
    }
  }

  // In library layout the list is in order exactly if the sections that keep their places are.
  lemma {:induction false} LibraryInOrder(e: Elf, ss: seq<Section>, rc: nat)
    requires !e.layout && Ready(ss) && Extents(e, ss, rc).Some?
    ensures var placed := Extents(e, ss, rc).value.0; InOrder(placed, rc) <==> KeptInOrder(placed, rc)
  {
    hide Extents, MaxEnd, Ready;
    var placed := Extents(e, ss, rc).value.0;
    DirtyKept(e, ss, rc);
    forall j | 0 <= j < |placed| && placed[j].dirty
      ensures placed[j].Hollow() || placed[j].offset >= MaxEnd(placed[..j], rc)
    {
      NewBehind(e, ss, rc, j);
    }
  }

  // ----- Sections after the second pass -----

  lemma InOrderMeans(ss: seq<Section>, rc: nat)
    ensures InOrder(ss, rc) <==> PastHeaders(ss, rc) && Ascending(ss)
  {
    hide MaxEnd;
    if InOrder(ss, rc) {
      forall i, j | 0 <= i < j < |ss| && !ss[i].Hollow() && !ss[j].Hollow()
        ensures ss[i].End() <= ss[j].offset
      {
        assert ss[..j][i] == ss[i];
        MaxEndBounds(ss[..j], rc, i);
      }
      forall j | 0 <= j < |ss| && !ss[j].Hollow()
        ensures ss[j].offset >= rc
      {
        MaxEndAtLeast(ss[..j], rc);
      }
    }
    if PastHeaders(ss, rc) && Ascending(ss) {
      forall j | 0 <= j < |ss| && !ss[j].Hollow()
        ensures ss[j].offset >= MaxEnd(ss[..j], rc)
      {
        var i := MaxEndAttained(ss[..j], rc);
      }
    }
  }

  // A list in order stays as it is.
  lemma {:induction false} SortedInOrder(ss: seq<Section>, rc: nat)
    requires InOrder(ss, rc)
    ensures Sorted(ss, rc) == Some((ss, MaxEnd(ss, rc)))
  {
    hide Sorted, Ordered, InOrder, PastHeaders, Ascending, MaxEnd;
    InOrderMeans(ss, rc);
    SortedIsOrdered(ss, rc);
    OrderedInOrder(ss, rc);
  }

  // The list comes out in order exactly if no section lies inside the headers and none without
  // contents misleads the search.
  lemma SortedInOrderIff(placed: seq<Section>, rc: nat)
    requires Sorted(placed, rc).Some?
    ensures InOrder(Sorted(placed, rc).value.0, rc) <==> PastHeaders(placed, rc) && NoneMisleads(placed, rc)
  {
    hide Sorted, Ordered, InOrder, NoneMisleads, Ascending, MaxEnd;
    var after := Sorted(placed, rc).value.0;
    SortedFacts(placed, rc);
    SameMultiset(after, placed);
    assert forall i :: 0 <= i < |after| ==> after[i] in placed;
    assert forall i :: 0 <= i < |placed| ==> placed[i] in after;
    assert PastHeaders(after, rc) <==> PastHeaders(placed, rc);
    InOrderMeans(after, rc);
    if PastHeaders(placed, rc) {
      SortedAscendingIff(placed, rc);
    }
  }

  // ----- The layout of the object -----

  // Header fields of the 32-bit class are 32 bits wide.
  function Trunc(c: ElfClass, x: nat): nat {
    if c.Elf32? then x % 0x1_0000_0000 else x
  }

  // Places that the application gives to the tables are aligned and leave room for what comes
  // before them.
  predicate TableFits(e: Elf, t: ElfType, n: nat, from: nat, at: nat) {
    n > 0 && e.layout ==> from <= at && at % FAlign(t, e.cls) == 0
  }

  // The section header table starts at an aligned place behind everything else, the first one if
  // the library chooses it.
  ghost predicate TableBehind(e: Elf, end: nat, shoff: nat) {
    end <= shoff && shoff % FAlign(Shdr, e.cls) == 0 && (!e.layout ==> shoff < end + FAlign(Shdr, e.cls))
  }

  // What a successful call has done: the sections before it, with their places, and in the order
  // of the list after it; the end of the file, and the section header table behind them.
  ghost predicate Resynced(e: Elf, nscn: nat, hdr: nat, before: seq<Section>, placed: seq<Section>, after: seq<Section>,
                           rc: nat, shoff: nat)
  {
    var laid, end := Extents(e, before, hdr), MaxEnd(placed, hdr);
    && laid.Some? && placed == laid.value.0 && Sorted(placed, hdr) == Some((after, end))
    && AllLaidOut(e, before, placed, hdr) && (HollowClear(placed) ==> Ascending(after))
    && (if nscn > 0 then TableBehind(e, end, shoff) && rc == shoff + nscn * FSize(Shdr, e.cls)
        else rc == end)
  }

  lemma {:induction false} ItIsResynced(e: Elf, nscn: nat, hdr: nat, before: seq<Section>, placed: seq<Section>,
                                        after: seq<Section>, end: nat, rc: nat, shoff: nat)
    requires Extents(e, before, hdr).Some? && placed == Extents(e, before, hdr).value.0
    requires Sorted(placed, hdr) == Some((after, end)) && end == MaxEnd(placed, hdr)
    requires Ready(before) && (HollowClear(placed) ==> Ascending(after))
    requires if nscn > 0 then TableBehind(e, end, shoff) && rc == shoff + nscn * FSize(Shdr, e.cls) else rc == end
    ensures Resynced(e, nscn, hdr, before, placed, after, rc, shoff)
  {
    hide Extents, MaxEnd, FSize, FAlign, AllLaidOut, Ready;
    ExtentsLaid(e, before, hdr);
  }

  // The layout leaves room for everything.
  lemma {:induction false} LaidRoom(e: Elf, nphdr: nat, nscn: nat, before: seq<Section>, placed: seq<Section>,
                                    after: seq<Section>, phoff: nat, shoff: nat, size: nat)
    requires Ready(before) && AllLoadable(e, before) && nscn == |after| && (nphdr > 0 ==> FSize(Ehdr, e.cls) <= phoff)
    requires Resynced(e, nscn, PhdrEnd(e.cls, nphdr, phoff), before, placed, after, size, shoff)
    ensures Room(e, nphdr, phoff, after, shoff, size)
  {
    hide Extents, Ascending, HollowClear, MaxEnd, Fit, DataInOrder, Sorted, FSize, FAlign;
    var hdr := PhdrEnd(e.cls, nphdr, phoff);
    ExtentsFit(e, before, hdr);
    SortedFacts(placed, hdr);
    SameMultiset(after, placed);
    MaxEndStart(hdr);
  }

  // The header fields are wide enough for the places.
  predicate Wide(e: Elf, size: nat) {
    !e.layout && e.cls.Elf32? ==> size < 0x1_0000_0000
  }

  // What the header fields say is then where everything is.
  lemma {:induction false} FieldsRoom(e: Elf, nphdr: nat, ss: seq<Section>, phoff: nat, shoff: nat, ePhoff: nat,
                                      eShoff: nat, size: nat)
    requires Room(e, nphdr, phoff, ss, shoff, size) && Wide(e, size) && (nphdr == 0 ==> phoff == 0) && (ss == [] ==> shoff == 0)
    requires if e.layout then (nphdr > 0 ==> ePhoff == phoff) && (ss != [] ==> eShoff == shoff)
             else ePhoff == Trunc(e.cls, phoff) && eShoff == Trunc(e.cls, shoff)
    ensures Room(e, nphdr, ePhoff, ss, eShoff, size) && PhdrEnd(e.cls, nphdr, ePhoff) == PhdrEnd(e.cls, nphdr, phoff)
    ensures !e.layout && (nphdr > 0 ==> phoff == FSize(Ehdr, e.cls)) ==> HeadersRight(e.cls, nphdr, ePhoff)
  {
    hide Fit, FAlign;
    MaxEndAtLeast(ss, PhdrEnd(e.cls, nphdr, phoff));
  }

  // With sections past the headers, none of which misleads the search, and data in order, the file
  // is in order; in library layout it is enough that the sections that keep their places are.
  lemma {:induction false} FileInOrder(e: Elf, nphdr: nat, before: seq<Section>, placed: seq<Section>,
                                       after: seq<Section>, phoff: nat, shoff: nat, size: nat)
    requires Ready(before) && AllLoadable(e, before) && Room(e, nphdr, phoff, after, shoff, size)
    requires var hdr := PhdrEnd(e.cls, nphdr, phoff);
             && Extents(e, before, hdr).Some? && placed == Extents(e, before, hdr).value.0
             && Sorted(placed, hdr).Some? && after == Sorted(placed, hdr).value.0
    ensures var hdr := PhdrEnd(e.cls, nphdr, phoff);
            && (!e.layout && KeptInOrder(placed, hdr) ==> PastHeaders(placed, hdr) && NoneMisleads(placed, hdr))
            && (GivenInOrder(e, before) && PastHeaders(placed, hdr) && NoneMisleads(placed, hdr) ==>
                  InFileOrder(AllRegions(e.cls, nphdr, phoff, after, shoff)))
    ensures !e.layout ==> AllAligned(e.cls, after)
  {
    hide Extents, Ascending, MaxEnd, Fit, DataInOrder, Sorted, FSize, FAlign, InOrder, PastHeaders, NoneMisleads, InFileOrder, AllRegions, PhdrEnd;
    hide GivenInOrder, KeptInOrder, AllAligned, Loadable;
    var hdr := PhdrEnd(e.cls, nphdr, phoff);
    SortedInOrderIff(placed, hdr);
    if !e.layout {
      FitAligned(e, after);
      LibraryInOrder(e, before, hdr);
      if KeptInOrder(placed, hdr) {
        SortedInOrder(placed, hdr);
      }
    }
    if GivenInOrder(e, before) && PastHeaders(placed, hdr) && NoneMisleads(placed, hdr) {
      ExtentsFit(e, before, hdr);
      SortedFacts(placed, hdr);
      SameMultiset(after, placed);
      AllInOrder(e, nphdr, phoff, after, shoff, size);
    }
  }

  lemma EhdrAligned(c: ElfClass)
    ensures RoundUp(FSize(Ehdr, c), FAlign(Phdr, c)) == FSize(Ehdr, c)
  {
  }

  lemma {:induction false} SameLength(a: seq<Node<Section>>, b: seq<Node<Section>>)
    requires multiset(a) == multiset(b)
    ensures |a| == |b| && |Values(a)| == |a|
  {
    assert |multiset(a)| == |a| && |multiset(b)| == |b|;
    ValuesAt(a);
  }

  lemma {:induction false} ResyncedMeans(e: Elf, nscn: nat, hdr: nat, before: seq<Section>, placed: seq<Section>,
                                         after: seq<Section>, rc: nat, shoff: nat)
    requires Resynced(e, nscn, hdr, before, placed, after, rc, shoff)
    ensures Extents(e, before, hdr).Some? && placed == Extents(e, before, hdr).value.0
    ensures Sorted(placed, hdr).Some? && after == Sorted(placed, hdr).value.0
    ensures AllLaidOut(e, before, placed, hdr)
  {
    hide Extents, Sorted, AllLaidOut;
  }

  // ----- The writer -----

  // Writes the contents of a section: its descriptors at their places, or the bytes of the file
  // it was read from.
  method WriteScn(e: Elf, rawfile: bool, buf: array<Cell>, s: Section, j: nat, rc0: nat) returns (ok: bool, rc: nat)
    requires Fit(e, s) && (!s.Hollow() ==> s.End() <= buf.Length)
    modifies buf
    ensures ok <==> s.Hollow() || s.data != [] || rawfile
    ensures ok ==> buf[..] == PutAll(old(buf[..]), rc0, ScnRegions(e.cls, j, s)) && rc == Cursor(rc0, ScnRegions(e.cls, j, s))
  {
    hide FSize, MSize, FAlign, PutAll, Put;
    ghost var image := buf[..];
    PutNone(image, rc0);
    ok, rc := true, rc0;
    if s.Hollow() {
      return;
    }
    if s.data == [] {
      if !rawfile {
        ok := false;
        return;
      }
      rc := Emit(buf, rc, s.offset, s.shSize, RawBytes(j));
      PutStep(image, rc0, [], Region(s.offset, s.shSize, RawBytes(j)));
      assert [] + [Region(s.offset, s.shSize, RawBytes(j))] == ScnRegions(e.cls, j, s);
      return;
    }
    var k := 0;
    while k < |s.data|
      invariant 0 <= k <= |s.data|
      invariant buf[..] == PutAll(image, rc0, DataRegions(e.cls, j, s, k)) && rc == Cursor(rc0, DataRegions(e.cls, j, s, k))
    {
      var d := s.data[k];
      assert d in s.data;
      var nobjects := d.size / MSize(d.dtype, e.cls);
      rc := Emit(buf, rc, s.offset + d.off, nobjects * FSize(d.dtype, e.cls), DataBytes(j, k));
      PutStep(image, rc0, DataRegions(e.cls, j, s, k), DataRegion(e.cls, j, s.offset, d, k));
      assert DataRegions(e.cls, j, s, k) + [DataRegion(e.cls, j, s.offset, d, k)] == DataRegions(e.cls, j, s, k + 1);
      k := k + 1;
    }
  }

  lemma {:induction false} PutNone(image: seq<Cell>, from: nat)
    ensures PutAll(image, from, []) == image && Cursor(from, []) == from
  {
  }

  // Some section has to be copied from the file it was read from.
  predicate NeedsRaw(ss: seq<Section>) {
    exists j :: 0 <= j < |ss| && !ss[j].Hollow() && ss[j].data == []
  }

  // Only the program header table can be written to the wrong place.
  predicate HeadersRight(c: ElfClass, nphdr: nat, phoff: nat) {
    nphdr > 0 ==> phoff == FSize(Ehdr, c)
  }

  class Object {
    const elf: Elf
    const scn: Head<Section>
    const nphdr: nat
    const nscn: nat
    const rawfile: bool
    var ePhoff: nat
    var eShoff: nat
    var eShnum: nat

    constructor (elf: Elf, scn: Head<Section>, nphdr: nat, nscn: nat, rawfile: bool, phoff: nat, shoff: nat)
      ensures this.elf == elf && this.scn == scn && this.nphdr == nphdr && this.nscn == nscn && this.rawfile == rawfile
      ensures ePhoff == phoff && eShoff == shoff
    {
      this.elf, this.scn, this.nphdr, this.nscn, this.rawfile := elf, scn, nphdr, nscn, rawfile;
      ePhoff, eShoff, eShnum := phoff, shoff, 0;
    }

    // Where the library or the application puts the program header table.
    function Phoff(): nat
      reads this
    {
      if nphdr == 0 then 0
      else if elf.layout then ePhoff
      else RoundUp(FSize(Ehdr, elf.cls), FAlign(Phdr, elf.cls))
    }

    // Where the sections may start.
    function Headers(): nat
      reads this
    {
      PhdrEnd(elf.cls, nphdr, Phoff())
    }

    // The sections with their places.
    ghost function Laid(): Option<(seq<Section>, nat)>
      reads this, scn, scn.Elems
    {
      Extents(elf, Values(scn.Elems), Headers())
    }

    // Everything can be given a place: the tables where the application wants them, and the
    // sections so that the list can be put into their order.
    ghost predicate CanResync()
      reads this, scn, scn.Elems
    {
      && TableFits(elf, Phdr, nphdr, FSize(Ehdr, elf.cls), ePhoff)
      && Laid().Some? && Sorted(Laid().value.0, Headers()).Some?
      && TableFits(elf, Shdr, nscn, MaxEnd(Laid().value.0, Headers()), eShoff)
    }

    lemma CanResyncMeans()
      ensures CanResync() <==>
                && TableFits(elf, Phdr, nphdr, FSize(Ehdr, elf.cls), ePhoff)
                && Extents(elf, Values(scn.Elems), Headers()).Some? && Sorted(Extents(elf, Values(scn.Elems), Headers()).value.0, Headers()).Some?
                && TableFits(elf, Shdr, nscn, MaxEnd(Extents(elf, Values(scn.Elems), Headers()).value.0, Headers()), eShoff)
    {
    }

    // In library layout it is enough that the sections that keep their places are in order.
    lemma LibraryCan()
      requires Ready(Values(scn.Elems))
      ensures Laid() == Extents(elf, Values(scn.Elems), Headers())
      ensures Laid().Some? <==> forall s <- Values(scn.Elems) :: Acceptable(elf, s)
      ensures !elf.layout && Laid().Some? && KeptInOrder(Laid().value.0, Headers()) ==>
                CanResync() && InOrder(Laid().value.0, Headers())
    {
      hide Extents, Sorted, InOrder, KeptInOrder, MaxEnd, Ready, FSize, Values, Acceptable, AllLaidOut;
      ExtentsLaid(elf, Values(scn.Elems), Headers());
      if !elf.layout && Laid().Some? && KeptInOrder(Laid().value.0, Headers()) {
        LibraryInOrder(elf, Values(scn.Elems), Headers());
        SortedInOrder(Laid().value.0, Headers());
      }
    }

    // Assigns places; headers, tables and sections come out disjoint, ordered and aligned.
    method ResyncElf() returns (ok: bool, rc: nat, phoff: nat, shoff: nat)
      requires scn.Valid() && Ready(Values(scn.Elems))
      modifies this, scn, scn.Elems
      ensures ok <==> old(CanResync())
      ensures ok ==> phoff == old(Phoff()) && scn.Valid() && multiset(scn.Elems) == multiset(old(scn.Elems))
      ensures ok ==> nphdr > 0 ==> FSize(Ehdr, elf.cls) <= phoff && phoff % FAlign(Phdr, elf.cls) == 0
      ensures ok ==> Resynced(elf, nscn, old(Headers()), old(Values(scn.Elems)), Values(old(scn.Elems)), Values(scn.Elems), rc, shoff)
      ensures ok && nscn == 0 ==> shoff == 0
      ensures ok && InOrder(Values(old(scn.Elems)), old(Headers())) ==> scn.Elems == old(scn.Elems)
      ensures ok ==> eShnum == if nscn >= SHN_LORESERVE then 0 else nscn
      ensures ok ==> if elf.layout then ePhoff == old(ePhoff) && eShoff == old(eShoff) &&
                                       (nphdr > 0 ==> phoff == ePhoff) && (nscn > 0 ==> shoff == eShoff)
                     else ePhoff == Trunc(elf.cls, phoff) && eShoff == Trunc(elf.cls, shoff) && (nphdr > 0 ==> phoff == FSize(Ehdr, elf.cls))
      ensures ok ==> old(Headers()) == PhdrEnd(elf.cls, nphdr, phoff) && (nphdr == 0 ==> phoff == 0)
    {
      hide *;
      shoff := eShoff;
      ghost var before, nodes, hdr, at := Values(scn.Elems), scn.Elems, Headers(), eShoff;
      CanResyncMeans();
      ok, rc, phoff := ResyncPhdrs();
      if !ok {
        return;
      }
      ok, rc := ResyncSections(elf, scn, rc);
      if !ok {
        return;
      }
      ghost var placed, after, end := Values(nodes), Values(scn.Elems), rc;
      ok, rc, shoff := ResyncShdrs(rc);
      if !ok {
        return;
      }
      ItIsResynced(elf, nscn, hdr, before, placed, after, end, rc, shoff);
      eShnum := if nscn >= SHN_LORESERVE then 0 else nscn;
      if !elf.layout {
        ePhoff, eShoff := Trunc(elf.cls, phoff), Trunc(elf.cls, shoff);
      }
    }

    // The place of the program header table, behind the file header.
    method ResyncPhdrs() returns (ok: bool, rc: nat, phoff: nat)
      ensures phoff == Phoff() && (ok ==> rc == Headers() == PhdrEnd(elf.cls, nphdr, phoff))
      ensures ok <==> TableFits(elf, Phdr, nphdr, FSize(Ehdr, elf.cls), ePhoff)
      ensures ok && nphdr > 0 ==> FSize(Ehdr, elf.cls) <= phoff && phoff % FAlign(Phdr, elf.cls) == 0
      ensures if nphdr == 0 then phoff == 0 else phoff == if elf.layout then ePhoff else FSize(Ehdr, elf.cls)
    {
      EhdrAligned(elf.cls);
      hide FSize, FAlign, RoundUp;
      ok, phoff := true, ePhoff;
      rc := FSize(Ehdr, elf.cls);
      if nphdr > 0 {
        if elf.layout {
          if rc > phoff || phoff % FAlign(Phdr, elf.cls) != 0 {
            ok := false;
            return;
          }
        } else {
          phoff := RoundUp(rc, FAlign(Phdr, elf.cls));
        }
        rc := phoff + nphdr * FSize(Phdr, elf.cls);
      } else {
        phoff := 0;
      }
    }

    // The place of the section header table, behind everything else.
    method ResyncShdrs(rc0: nat) returns (ok: bool, rc: nat, shoff: nat)
      ensures ok <==> TableFits(elf, Shdr, nscn, rc0, eShoff)
      ensures (nscn == 0 ==> shoff == 0) && (ok && elf.layout && nscn > 0 ==> shoff == eShoff)
      ensures ok ==> if nscn > 0 then TableBehind(elf, rc0, shoff) && rc == shoff + nscn * FSize(Shdr, elf.cls)
                     else rc == rc0
    {
      hide FSize, FAlign, RoundUp;
      ok, rc, shoff := true, rc0, eShoff;
      if nscn > 0 {
        if elf.layout {
          if rc > shoff || shoff % FAlign(Shdr, elf.cls) != 0 {
            ok := false;
            return;
          }
        } else {
          shoff := RoundUp(rc, FAlign(Shdr, elf.cls));
        }
        rc := shoff + FSize(Shdr, elf.cls) * nscn;
      } else {
        shoff := 0;
      }
    }

    // The object is ready to be written: everything has its place below newsize.
    ghost predicate Placed(newsize: nat)
      reads this, scn, scn.Elems
    {
      scn.Valid() && nscn == |scn.Elems| && Room(elf, nphdr, ePhoff, Values(scn.Elems), eShoff, newsize) &&
      eShnum == if nscn >= SHN_LORESERVE then 0 else nscn
    }

    // Everything that belongs into the file, in the order it is written.
    ghost function Regions(): seq<Region>
      reads this, scn, scn.Elems
    {
      AllRegions(elf.cls, nphdr, ePhoff, Values(scn.Elems), eShoff)
    }

    // The program header table is written behind the file header, wherever its field says it is.
    method WriteHeaders(buf: array<Cell>) returns (rc: nat)
      requires PhdrEnd(elf.cls, nphdr, ePhoff) <= buf.Length && (nphdr > 0 ==> FSize(Ehdr, elf.cls) <= ePhoff)
      requires forall x :: 0 <= x < buf.Length ==> buf[x] == Unset
      modifies buf
      ensures rc == PhdrEnd(elf.cls, nphdr, ePhoff)
      ensures HeadersRight(elf.cls, nphdr, ePhoff) ==> buf[..] == PutAll(old(buf[..]), 0, HeaderRegions(elf.cls, nphdr, ePhoff))
      ensures !HeadersRight(elf.cls, nphdr, ePhoff) ==> ePhoff < buf.Length && buf[ePhoff] != From(PhdrBytes, 0)
    {
      hide PutAll, Put;
      ghost var image := buf[..];
      ghost var ehdr, phdr := Region(0, FSize(Ehdr, elf.cls), EhdrBytes), Region(ePhoff, nphdr * FSize(Phdr, elf.cls), PhdrBytes);
      PutNone(image, 0);
      PutStep(image, 0, [], ehdr);
      PutStep(image, 0, [ehdr], phdr);
      assert [] + [ehdr] == [ehdr] && [ehdr] + [] == [ehdr];
      rc := Emit(buf, 0, 0, FSize(Ehdr, elf.cls), EhdrBytes);
      if nphdr != 0 && ePhoff != 0 {
        ghost var first := buf[..];
        var fsz := nphdr * FSize(Phdr, elf.cls);
        Multiples(0, nphdr, FSize(Phdr, elf.cls));
        if rc < ePhoff {
          Fill(buf, rc, ePhoff);
        }
        Xlate(buf, rc, fsz, PhdrBytes);
        assert rc == ePhoff ==> buf[..] == Put(first, rc, phdr);
        rc := ePhoff + fsz;
      }
    }

    method WriteSections(buf: array<Cell>, rc0: nat) returns (ok: bool, rc: nat)
      requires scn.Valid() && MaxEnd(Values(scn.Elems), rc0) <= buf.Length
      requires forall s :: s in Values(scn.Elems) ==> Fit(elf, s)
      modifies buf
      ensures ok <==> rawfile || !NeedsRaw(Values(scn.Elems))
      ensures ok ==> buf[..] == PutAll(old(buf[..]), rc0, ScnsRegions(elf.cls, Values(scn.Elems), |scn.Elems|))
      ensures ok ==> rc == Cursor(rc0, ScnsRegions(elf.cls, Values(scn.Elems), |scn.Elems|)) <= MaxEnd(Values(scn.Elems), rc0)
    {
      hide Fit, MaxEnd, Values, ScnRegions, PutAll;
      ghost var ss, image := Values(scn.Elems), buf[..];
      ValuesAt(scn.Elems);
      PutNone(image, rc0);
      ok, rc := true, rc0;
      var s, j := scn.first, 0;
      while s != null
        invariant 0 <= j <= |scn.Elems| && s == if j < |scn.Elems| then scn.Elems[j] else null
        invariant buf[..] == PutAll(image, rc0, ScnsRegions(elf.cls, ss, j)) && rc == Cursor(rc0, ScnsRegions(elf.cls, ss, j))
        invariant forall i :: 0 <= i < j ==> ss[i].Hollow() || ss[i].data != [] || rawfile
        decreases |scn.Elems| - j
      {
        assert j + 1 < |scn.Elems| ==> scn.Elems[j].next == scn.Elems[j + 1];
        assert s.value == ss[j] && ss[j] in ss;
        if !s.value.Hollow() {
          MaxEndBounds(ss, rc0, j);
        }
        ok, rc := WriteScn(elf, rawfile, buf, s.value, j, rc);
        if !ok {
          return;
        }
        PutConcat(image, rc0, ScnsRegions(elf.cls, ss, j), ScnRegions(elf.cls, j, ss[j]));
        s := s.next;
        j := j + 1;
      }
      CursorWithin(elf, ss, rc0);
    }

    method WriteShdrs(buf: array<Cell>, rc0: nat) returns (rc: nat)
      requires scn.Valid() && nscn == |scn.Elems| && nscn > 0 && buf.Length == eShoff + nscn * FSize(Shdr, elf.cls)
      modifies buf
      ensures buf[..] == PutAll(old(buf[..]), rc0, ShdrRegions(elf.cls, eShoff, nscn)) && rc == buf.Length
    {
      hide PutAll, FSize;
      ghost var image := buf[..];
      PutNone(image, rc0);
      rc := rc0;
      var s, j, fsz := scn.first, 0, FSize(Shdr, elf.cls);
      while s != null
        invariant 0 <= j <= nscn && s == if j < nscn then scn.Elems[j] else null
        invariant buf[..] == PutAll(image, rc0, ShdrRegions(elf.cls, eShoff, j)) && rc == Cursor(rc0, ShdrRegions(elf.cls, eShoff, j))
        invariant j > 0 ==> rc == eShoff + j * fsz
        decreases nscn - j
      {
        assert j + 1 < |scn.Elems| ==> scn.Elems[j].next == scn.Elems[j + 1];
        Multiples(j, nscn, fsz);
        Multiples(j, j + 1, fsz);
        rc := Emit(buf, rc, eShoff + j * fsz, fsz, ShdrBytes(j));
        PutStep(image, rc0, ShdrRegions(elf.cls, eShoff, j), ShdrRegion(elf.cls, eShoff, j));
        assert ShdrRegions(elf.cls, eShoff, j) + [ShdrRegion(elf.cls, eShoff, j)] == ShdrRegions(elf.cls, eShoff, j + 1);
        s := s.next;
        j := j + 1;
      }
    }

    lemma ItIsPlaced(newsize: nat)
      requires scn.Valid() && nscn == |scn.Elems| && Room(elf, nphdr, ePhoff, Values(scn.Elems), eShoff, newsize)
      requires eShnum == if nscn >= SHN_LORESERVE then 0 else nscn
      ensures Placed(newsize) && Regions() == AllRegions(elf.cls, nphdr, ePhoff, Values(scn.Elems), eShoff)
    {
    }

    // Builds the file image, unless it needs bytes of a file that is not there.  It ends at the
    // predicted size unless there are so many sections that e_shnum has to be 0, and then it is
    // what it should be exactly if everything is in file order and the program header table
    // follows the file header.
    method WriteElf(newsize: nat) returns (ok: bool, buf: array<Cell>, rc: nat)
      requires Placed(newsize)
      ensures fresh(buf) && buf.Length == newsize
      ensures ok <==> rawfile || !NeedsRaw(Values(scn.Elems))
      ensures ok ==> (rc == newsize <==> nscn < SHN_LORESERVE)
      ensures ok && nscn < SHN_LORESERVE ==>
                (Faithful(buf[..], Regions()) <==> InFileOrder(Regions()) && HeadersRight(elf.cls, nphdr, ePhoff))
    {
      hide Fit, MaxEnd, Values, PutAll, ScnsRegions, ShdrRegions, HeaderRegions, NeedsRaw, Faithful, InFileOrder;
      buf := new Cell[newsize](_ => Unset);
      assert buf[..] == Blank(newsize);
      ghost var ss, hdr := Values(scn.Elems), PhdrEnd(elf.cls, nphdr, ePhoff);
      ValuesAt(scn.Elems);
      RoomMeans(elf, nphdr, ePhoff, ss, eShoff, newsize);
      rc := WriteHeaders(buf);
      ghost var headers := buf[..];
      ok, rc := WriteSections(buf, rc);
      if !ok {
        return;
      }
      ghost var h, a, t := HeaderRegions(elf.cls, nphdr, ePhoff), ScnsRegions(elf.cls, ss, |ss|), ShdrRegions(elf.cls, eShoff, nscn);
      if eShnum != 0 && eShoff != 0 {
        rc := WriteShdrs(buf, rc);
        PutConcat(headers, hdr, a, t);
      }
      if nscn < SHN_LORESERVE {
        if nscn == 0 {
          NoRegions(elf.cls, nphdr, ePhoff, eShoff);
          assert a + t == [];
        }
        assert buf[..] == PutAll(headers, hdr, a + t);
        ImageRight(elf, nphdr, ePhoff, ss, eShoff, newsize, headers, buf[..]);
      }
    }

    // elf_update with ELF_C_WRITE.
    method Update() returns (ok: bool, size: nat, wrote: bool, image: array?<Cell>)
      requires scn.Valid() && nscn == |scn.Elems| && Ready(Values(scn.Elems)) && AllLoadable(elf, Values(scn.Elems))
      modifies this, scn, scn.Elems
      ensures ok <==> old(CanResync())
      ensures ok ==> scn.Valid() && multiset(scn.Elems) == multiset(old(scn.Elems))
      ensures ok && InOrder(Values(old(scn.Elems)), old(Headers())) ==> scn.Elems == old(scn.Elems)
      ensures ok && Wide(elf, size) ==> (wrote <==> (rawfile || !NeedsRaw(Values(scn.Elems))) && nscn < SHN_LORESERVE)
      ensures old(Laid()).Some? <==> forall s <- old(Values(scn.Elems)) :: Acceptable(elf, s)
      ensures ok ==> AllLaidOut(elf, old(Values(scn.Elems)), Values(old(scn.Elems)), old(Headers()))
      ensures wrote ==> ok && image != null && image.Length == size
      ensures wrote ==> (Faithful(image[..], Regions()) <==> InFileOrder(Regions()) && HeadersRight(elf.cls, nphdr, ePhoff))
      ensures wrote && old(GivenInOrder(elf, Values(scn.Elems))) &&
              PastHeaders(Values(old(scn.Elems)), old(Headers())) && NoneMisleads(Values(old(scn.Elems)), old(Headers())) ==>
                InFileOrder(Regions())
      ensures !elf.layout && old(Laid()).Some? && KeptInOrder(old(Laid()).value.0, old(Headers())) ==>
                ok && scn.Elems == old(scn.Elems) &&
                (wrote && old(GivenInOrder(elf, Values(scn.Elems))) ==> Faithful(image[..], Regions()))
      ensures wrote && !elf.layout ==> HeadersRight(elf.cls, nphdr, ePhoff) && AllAligned(elf.cls, Values(scn.Elems))
    {
      hide *;
      ghost var ss, hdr, nodes := Values(scn.Elems), Headers(), scn.Elems;
      LibraryCan();
      wrote, image := false, null;
      var phoff, shoff;
      ok, size, phoff, shoff := ResyncElf();
      if !ok {
        return;
      }
      ghost var placed, after := Values(nodes), Values(scn.Elems);
      ResyncedMeans(elf, nscn, hdr, ss, placed, after, size, shoff);
      if Wide(elf, size) {
        SameLength(scn.Elems, nodes);
        LaidRoom(elf, nphdr, nscn, ss, placed, after, phoff, shoff, size);
        FieldsRoom(elf, nphdr, after, phoff, shoff, ePhoff, eShoff, size);
        FileInOrder(elf, nphdr, ss, placed, after, ePhoff, eShoff, size);
        ItIsPlaced(size);
        var written, buf, rc := WriteElf(size);
        wrote, image := written && rc == size, buf;
      }
    }
  }

  // Data that the library has placed lie in the file at the alignment of their type.
  ghost predicate AllAligned(c: ElfClass, ss: seq<Section>) {
    forall s, d :: s in ss && !s.Hollow() && s.dirty && d in s.data ==> (s.offset + d.off) % FAlign(d.dtype, c) == 0
  }

  lemma FitAligned(e: Elf, ss: seq<Section>)
    requires !e.layout && forall s :: s in ss ==> Fit(e, s)
    ensures AllAligned(e.cls, ss)
  {
    hide FAlign, MSize, FSize;
    forall s, d | s in ss && !s.Hollow() && s.dirty && d in s.data
      ensures (s.offset + d.off) % FAlign(d.dtype, e.cls) == 0
    {
      AddDivisible(s.offset, d.off, FAlign(d.dtype, e.cls));
    }
  }

  lemma {:induction false} CursorWithin(e: Elf, ss: seq<Section>, rc: nat)
    requires forall s :: s in ss ==> Fit(e, s)
    ensures Cursor(rc, ScnsRegions(e.cls, ss, |ss|)) <= MaxEnd(ss, rc)
  {
    hide Fit, MaxEnd, ScnsRegions;
    assert ss[..|ss|] == ss;
    ScnsWithin(e, ss, |ss|, rc);
    MaxEndAtLeast(ss, rc);
  }

  lemma {:induction false} RoomMeans(e: Elf, nphdr: nat, phoff: nat, ss: seq<Section>, shoff: nat, newsize: nat)
    requires Room(e, nphdr, phoff, ss, shoff, newsize)
    ensures var hdr := PhdrEnd(e.cls, nphdr, phoff);
            && 0 < hdr <= MaxEnd(ss, hdr) <= newsize && (ss == [] ==> MaxEnd(ss, hdr) == newsize)
            && (ss != [] ==> 0 < shoff && MaxEnd(ss, hdr) <= shoff < newsize)
  {
    hide Fit, MaxEnd, FAlign;
    var hdr := PhdrEnd(e.cls, nphdr, phoff);
    MaxEndAtLeast(ss, hdr);
    MaxEndStart(hdr);
    if ss != [] {
      Multiples(0, |ss|, FSize(Shdr, e.cls));
    }
  }

  // What has been written is what should be there exactly if everything is in file order and the
  // program header table follows the file header.
  lemma {:induction false} ImageRight(e: Elf, nphdr: nat, phoff: nat, ss: seq<Section>, shoff: nat, newsize: nat,
                                      headers: seq<Cell>, image: seq<Cell>)
    requires Room(e, nphdr, phoff, ss, shoff, newsize)
    requires HeadersRight(e.cls, nphdr, phoff) ==> headers == PutAll(Blank(newsize), 0, HeaderRegions(e.cls, nphdr, phoff))
    requires !HeadersRight(e.cls, nphdr, phoff) ==> phoff < |headers| && headers[phoff] != From(PhdrBytes, 0)
    requires image == PutAll(headers, PhdrEnd(e.cls, nphdr, phoff), ScnsRegions(e.cls, ss, |ss|) + ShdrRegions(e.cls, shoff, |ss|))
    ensures var rs := AllRegions(e.cls, nphdr, phoff, ss, shoff);
            Faithful(image, rs) <==> InFileOrder(rs) && HeadersRight(e.cls, nphdr, phoff)
  {
    hide PutAll, ScnsRegions, Fit, MaxEnd, FSize, FAlign, Faithful, InFileOrder, Within, OneEach;
    var hdr, rs := PhdrEnd(e.cls, nphdr, phoff), AllRegions(e.cls, nphdr, phoff, ss, shoff);
    var h, more := HeaderRegions(e.cls, nphdr, phoff), ScnsRegions(e.cls, ss, |ss|) + ShdrRegions(e.cls, shoff, |ss|);
    assert rs == h + more;
    if HeadersRight(e.cls, nphdr, phoff) {
      HeaderPlaces(e.cls, nphdr, phoff);
      PutConcat(Blank(newsize), 0, h, more);
      AllOneEach(e.cls, nphdr, phoff, ss, shoff);
      AllWithin(e, nphdr, phoff, ss, shoff, newsize);
      FaithfulIff(newsize, rs);
    } else {
      TableLost(e, nphdr, phoff, ss, shoff, headers, image);
    }
  }

  lemma {:induction false} TableLost(e: Elf, nphdr: nat, phoff: nat, ss: seq<Section>, shoff: nat, headers: seq<Cell>,
                                     image: seq<Cell>)
    requires nphdr > 0 && phoff < |headers| && headers[phoff] != From(PhdrBytes, 0)
    requires image == PutAll(headers, PhdrEnd(e.cls, nphdr, phoff), ScnsRegions(e.cls, ss, |ss|) + ShdrRegions(e.cls, shoff, |ss|))
    ensures !Faithful(image, AllRegions(e.cls, nphdr, phoff, ss, shoff))
  {
    hide PutAll, ScnsRegions, FSize;
    var hdr, rs := PhdrEnd(e.cls, nphdr, phoff), AllRegions(e.cls, nphdr, phoff, ss, shoff);
    var a, t := ScnsRegions(e.cls, ss, |ss|), ShdrRegions(e.cls, shoff, |ss|);
    OldOrWritten(headers, hdr, a + t, phoff);
    ScnsOneEach(e.cls, ss, |ss|);
    assert forall i :: 0 <= i < |a| ==> a[i] in a;
    assert forall i :: 0 <= i < |a + t| ==> (a + t)[i].source != PhdrBytes;
    assert rs[1] == Region(phoff, nphdr * FSize(Phdr, e.cls), PhdrBytes);
    Multiples(0, nphdr, FSize(Phdr, e.cls));
    assert rs[1].Covers(phoff);
  }
}
