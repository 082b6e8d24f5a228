/**
 File images as sequences of cells that tell where each byte comes from: what an image of given
 regions should be, and what becomes of it when the regions are written one after the other.
 */
module ElfImage {

  // Where a byte of the file comes from.
  datatype Source = EhdrBytes | PhdrBytes | DataBytes(scn: nat, index: nat) | RawBytes(scn: nat) | ShdrBytes(scn: nat)
  datatype Cell = Unset | Filler | From(source: Source, index: nat)

  datatype Region = Region(at: nat, n: nat, source: Source) {
    function End(): nat { at + n }

    predicate Covers(x: int) { at <= x < End() }
  }

  // ----- What an image should be -----

  ghost predicate Shown(image: seq<Cell>, r: Region) {
    forall x :: 0 <= x < |image| && r.Covers(x) ==> image[x] == From(r.source, x - r.at)
  }

  ghost predicate Outside(rs: seq<Region>, x: int) {
    forall i :: 0 <= i < |rs| ==> !rs[i].Covers(x)
  }

  ghost predicate Within(rs: seq<Region>, n: nat) {
    forall i :: 0 <= i < |rs| ==> rs[i].End() <= n
  }

  // Every byte comes from the region it lies in, in each of them, or is filler.
  ghost predicate Faithful(image: seq<Cell>, rs: seq<Region>) {
    && Within(rs, |image|) && (forall i :: 0 <= i < |rs| ==> Shown(image, rs[i]))
    && forall x :: 0 <= x < |image| && Outside(rs, x) ==> image[x] == Filler
  }

  // No region that holds anything reaches beyond the start of a later one.
  ghost predicate InFileOrder(rs: seq<Region>) {
    forall i, j :: 0 <= i < j < |rs| && rs[i].n > 0 ==> rs[i].End() <= rs[j].at
  }

  ghost predicate OneEach(rs: seq<Region>) {
    forall i, j :: 0 <= i < j < |rs| ==> rs[i].source != rs[j].source
  }

  // ----- Writing regions -----

  function Blank(n: nat): (image: seq<Cell>)
    ensures |image| == n && forall x :: 0 <= x < n ==> image[x] == Unset
  {
    seq(n, _ => Unset)
  }

  // Fills from the cursor up to the region, then writes it.
  function Put(image: seq<Cell>, rc: nat, r: Region): (image': seq<Cell>)
    ensures |image'| == |image|
    ensures forall x :: 0 <= x < |image| ==>
              image'[x] == if r.Covers(x) then From(r.source, x - r.at) else if rc <= x < r.at then Filler else image[x]
  {
    seq(|image|, x requires 0 <= x < |image| =>
      if r.Covers(x) then From(r.source, x - r.at) else if rc <= x < r.at then Filler else image[x])
  }

  function Cursor(from: nat, rs: seq<Region>): nat {
    if rs == [] then from else rs[|rs| - 1].End()
  }

  function PutAll(image: seq<Cell>, from: nat, rs: seq<Region>): (image': seq<Cell>)
    ensures |image'| == |image|
  {
    if rs == [] then image
    else
      var init := rs[..|rs| - 1];
      Put(PutAll(image, from, init), Cursor(from, init), rs[|rs| - 1])
  }

  lemma {:induction false} PutStep(image: seq<Cell>, from: nat, rs: seq<Region>, r: Region)
    ensures PutAll(image, from, rs + [r]) == Put(PutAll(image, from, rs), Cursor(from, rs), r) && Cursor(from, rs + [r]) == r.End()
  {
    assert (rs + [r])[..|rs|] == rs;
  }

  lemma {:induction false} PutConcat(image: seq<Cell>, from: nat, a: seq<Region>, b: seq<Region>)
    ensures PutAll(PutAll(image, from, a), Cursor(from, a), b) == PutAll(image, from, a + b)
    ensures Cursor(Cursor(from, a), b) == Cursor(from, a + b)
  {
    if b == [] {
      assert a + b == a;
    } else {
      var init, r := b[..|b| - 1], b[|b| - 1];
      PutConcat(image, from, a, init);
      PutStep(image, from, a + init, r);
      assert a + init + [r] == a + b;
    }
  }

  // The byte is filler or comes from one of the regions, from number j on.
  ghost predicate WrittenBy(c: Cell, rs: seq<Region>, j: nat) {
    c == Filler || (c.From? && exists i :: j <= i < |rs| && rs[i].source == c.source)
  }

  lemma WrittenByMore(c: Cell, rs: seq<Region>, r: Region, j: nat)
    requires WrittenBy(c, rs, j)
    ensures WrittenBy(c, rs + [r], j)
  {
    if c.From? {
      var i :| j <= i < |rs| && rs[i].source == c.source;
      assert (rs + [r])[i] == rs[i];
    }
  }

  lemma {:induction false} OldOrWritten(image: seq<Cell>, from: nat, rs: seq<Region>, x: nat)
    requires x < |image|
    ensures PutAll(image, from, rs)[x] == image[x] || WrittenBy(PutAll(image, from, rs)[x], rs, 0)
  {
    if rs != [] {
      var init, r := rs[..|rs| - 1], rs[|rs| - 1];
      assert rs == init + [r];
      OldOrWritten(image, from, init, x);
      if WrittenBy(PutAll(image, from, init)[x], init, 0) {
        WrittenByMore(PutAll(image, from, init)[x], init, r, 0);
      }
      assert r.Covers(x) ==> rs[|rs| - 1].source == r.source;
    }
  }

  // The cursor passes over everything between the start of region j and the end of the last one,
  // and writes it again.
  lemma {:induction false} Passed(image: seq<Cell>, from: nat, rs: seq<Region>, j: nat, x: nat)
    requires j < |rs| && x < |image| && x < Cursor(from, rs) && (rs[j].at <= x || (j == 0 && from <= x))
    ensures WrittenBy(PutAll(image, from, rs)[x], rs, j)
  {
    var init, r := rs[..|rs| - 1], rs[|rs| - 1];
    assert rs == init + [r];
    if r.Covers(x) {
      assert rs[|rs| - 1].source == r.source;
    } else if !(Cursor(from, init) <= x < r.at) {
      Passed(image, from, init, j, x);
      WrittenByMore(PutAll(image, from, init)[x], init, r, j);
    }
  }

  // Regions in file order stay as they are written.
  lemma {:induction false} Kept(image: seq<Cell>, from: nat, rs: seq<Region>, i: nat, x: nat)
    requires i < |rs| && rs[i].Covers(x) && x < |image| && InFileOrder(rs)
    ensures PutAll(image, from, rs)[x] == From(rs[i].source, x - rs[i].at)
  {
    var init, r := rs[..|rs| - 1], rs[|rs| - 1];
    if i < |init| {
      assert init[i] == rs[i];
      assert Cursor(from, init) == init[|init| - 1].End() && init[|init| - 1] == rs[|rs| - 2];
      Kept(image, from, init, i, x);
    }
  }

  lemma {:induction false} NeverWritten(image: seq<Cell>, from: nat, rs: seq<Region>, x: nat)
    requires x < |image| && Outside(rs, x)
    ensures PutAll(image, from, rs)[x] == image[x] || PutAll(image, from, rs)[x] == Filler
  {
    if rs != [] {
      var init := rs[..|rs| - 1];
      assert forall i :: 0 <= i < |init| ==> init[i] == rs[i];
      NeverWritten(image, from, init, x);
    }
  }

  // A region that a later one starts inside of, or before, is lost.
  lemma {:induction false} Lost(n: nat, rs: seq<Region>, i: nat, j: nat)
    requires i < j < |rs| && rs[i].n > 0 && rs[j].at < rs[i].End() && OneEach(rs) && Within(rs, n) && Cursor(0, rs) == n
    ensures !Shown(PutAll(Blank(n), 0, rs), rs[i])
  {
    var x := rs[i].End() - 1;
    Passed(Blank(n), 0, rs, j, x);
    assert rs[i].Covers(x);
  }

  // Writing one region after the other, up to the end of the file, gives a faithful image exactly
  // if they are in file order.
  lemma {:induction false} FaithfulIff(n: nat, rs: seq<Region>)
    requires rs != [] && OneEach(rs) && Within(rs, n) && Cursor(0, rs) == n
    ensures Faithful(PutAll(Blank(n), 0, rs), rs) <==> InFileOrder(rs)
  {
    var image := PutAll(Blank(n), 0, rs);
    forall x | 0 <= x < n && Outside(rs, x)
      ensures image[x] == Filler
    {
      Passed(Blank(n), 0, rs, 0, x);
      NeverWritten(Blank(n), 0, rs, x);
    }
    if InFileOrder(rs) {
      forall i, x | 0 <= i < |rs| && 0 <= x < n && rs[i].Covers(x)
        ensures image[x] == From(rs[i].source, x - rs[i].at)
      {
        Kept(Blank(n), 0, rs, i, x);
      }
    } else {
      var i, j :| 0 <= i < j < |rs| && rs[i].n > 0 && rs[i].End() > rs[j].at;
      Lost(n, rs, i, j);
    }
  }

  // ----- The writer's memory -----

  // Fills [lo, hi).
  method Fill(buf: array<Cell>, lo: nat, hi: nat)
    requires lo <= hi <= buf.Length
    modifies buf
    ensures forall x :: lo <= x < hi ==> buf[x] == Filler
    ensures forall x :: 0 <= x < buf.Length && !(lo <= x < hi) ==> buf[x] == old(buf[x])
  {
    for x := lo to hi
      invariant forall y :: lo <= y < x ==> buf[y] == Filler
      invariant forall y :: 0 <= y < buf.Length && !(lo <= y < x) ==> buf[y] == old(buf[y])
    {
      buf[x] := Filler;
    }
  }

  // Translates n bytes of a source to place `at`.
  method Xlate(buf: array<Cell>, at: nat, n: nat, source: Source)
    requires at + n <= buf.Length
    modifies buf
    ensures forall x :: at <= x < at + n ==> buf[x] == From(source, x - at)
    ensures forall x :: 0 <= x < buf.Length && !(at <= x < at + n) ==> buf[x] == old(buf[x])
  {
    for k := 0 to n
      invariant forall y :: at <= y < at + k ==> buf[y] == From(source, y - at)
      invariant forall y :: 0 <= y < buf.Length && !(at <= y < at + k) ==> buf[y] == old(buf[y])
    {
      buf[at + k] := From(source, k);
    }
  }

  // Fill up to the region, then write it.
  method Emit(buf: array<Cell>, rc: nat, at: nat, n: nat, source: Source) returns (rc': nat)
    requires at + n <= buf.Length
    modifies buf
    ensures buf[..] == Put(old(buf[..]), rc, Region(at, n, source)) && rc' == at + n
  {
    if rc < at {
      Fill(buf, rc, at);
    }
    Xlate(buf, at, n, source);
    rc' := at + n;
  }
}
