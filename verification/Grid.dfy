/**
 Routers in rows and columns, joined along rows by links of weight 1 and along columns by links
 of weight 2, with or without links from the last router of a line back to the first.
 */
module Grid {
  import opened Arithmetic
  import opened Network

  // The number of the router in row r and column c.
  function Id(cols: nat, r: nat, c: nat): nat {
    c + r * cols
  }

  lemma IdParts(cols: nat, r: nat, c: nat)
    requires c < cols
    ensures Id(cols, r, c) / cols == r && Id(cols, r, c) % cols == c
  {
    DivModUnique(Id(cols, r, c), cols, r, c);
  }

  lemma IdBound(rows: nat, cols: nat, r: nat, c: nat)
    requires c < cols && r < rows
    ensures Id(cols, r, c) < rows * cols
  {
    assert (r + 1) * cols <= rows * cols;
  }

  // The next router on a line of n routers.
  function Succ(n: nat, i: nat): nat {
    if i + 1 < n then i + 1 else 0
  }

  // Whether a link leads on from position i of a line of n routers.
  predicate Linked(wrap: bool, n: nat, i: nat) {
    i < n && (wrap || i + 1 < n)
  }

  predicate Joins(l: IntLink, u: nat, v: nat) {
    (l.a == u && l.b == v) || (l.a == v && l.b == u)
  }

  // A row link names the earlier router first in the mesh and last in the torus; a column link
  // names the earlier one first in both.
  predicate IsRowLink(wrap: bool, cols: nat, l: IntLink, r: nat, c: nat) {
    Linked(wrap, cols, c) && l.weight == 1 &&
    var here, next := Id(cols, r, c), Id(cols, r, Succ(cols, c));
    if wrap then l.a == next && l.b == here else l.a == here && l.b == next
  }

  predicate IsColumnLink(wrap: bool, rows: nat, cols: nat, l: IntLink, r: nat, c: nat) {
    Linked(wrap, rows, r) && c < cols && l.weight == 2 && l.a == Id(cols, r, c) && l.b == Id(cols, Succ(rows, r), c)
  }

  // The links are those of the grid.
  ghost predicate IsGrid(wrap: bool, rows: nat, cols: nat, links: seq<IntLink>) {
    (forall l :: l in links ==>
       (exists r: nat, c: nat :: r < rows && IsRowLink(wrap, cols, l, r, c)) ||
       (exists r: nat, c: nat :: IsColumnLink(wrap, rows, cols, l, r, c))) &&
    (forall r: nat, c: nat :: r < rows && Linked(wrap, cols, c) ==> HasRowLink(wrap, cols, links, r, c)) &&
    (forall r: nat, c: nat :: Linked(wrap, rows, r) && c < cols ==> HasColumnLink(wrap, rows, cols, links, r, c))
  }

  ghost predicate HasRowLink(wrap: bool, cols: nat, links: seq<IntLink>, r: nat, c: nat) {
    exists l :: l in links && IsRowLink(wrap, cols, l, r, c)
  }

  ghost predicate HasColumnLink(wrap: bool, rows: nat, cols: nat, links: seq<IntLink>, r: nat, c: nat) {
    exists l :: l in links && IsColumnLink(wrap, rows, cols, l, r, c)
  }

  // ----- Distances -----

  function Gap(i: nat, j: nat): nat {
    if i < j then j - i else i - j
  }

  // Distance on a line of n routers, or on a ring.
  function LineDistance(wrap: bool, n: nat, i: nat, j: nat): nat
    requires i < n && j < n
  {
    if wrap && n - Gap(i, j) < Gap(i, j) then n - Gap(i, j) else Gap(i, j)
  }

  function Distance(wrap: bool, rows: nat, cols: nat, u: nat, v: nat): nat
    requires u < rows * cols && v < rows * cols
  {
    RowInRange(rows, cols, u);
    RowInRange(rows, cols, v);
    LineDistance(wrap, cols, u % cols, v % cols) + 2 * LineDistance(wrap, rows, u / cols, v / cols)
  }

  lemma RowInRange(rows: nat, cols: nat, u: nat)
    requires u < rows * cols
    ensures cols > 0 && u / cols < rows && u % cols < cols && Id(cols, u / cols, u % cols) == u
  {
    if cols > 0 {
      LevelInRange(u, cols, rows);
    }
  }

  // One link changes the distance to anywhere on the line by at most one.
  lemma LineStep(wrap: bool, n: nat, i: nat, j: nat)
    requires Linked(wrap, n, i) && j < n
    ensures Succ(n, i) < n
    ensures -1 <= LineDistance(wrap, n, i, j) - LineDistance(wrap, n, Succ(n, i), j) <= 1
  {
  }

  // From anywhere else on the line, one of the two links gets closer.
  lemma LineCloser(wrap: bool, n: nat, i: nat, j: nat) returns (i': nat)
    requires i < n && j < n && i != j
    ensures i' < n && LineDistance(wrap, n, i', j) == LineDistance(wrap, n, i, j) - 1
    ensures (Linked(wrap, n, i) && i' == Succ(n, i)) || (Linked(wrap, n, i') && i == Succ(n, i'))
  {
    var forward := if i < j then j - i else n - (i - j);
    var ahead := if wrap then forward <= n - forward else i < j;
    i' := if ahead then Succ(n, i) else if i == 0 then n - 1 else i - 1;
  }

  // The distance in coordinates.
  lemma DistanceAt(wrap: bool, rows: nat, cols: nat, r: nat, c: nat, r': nat, c': nat)
    requires r < rows && r' < rows && c < cols && c' < cols
    ensures Id(cols, r, c) < rows * cols && Id(cols, r', c') < rows * cols
    ensures Distance(wrap, rows, cols, Id(cols, r, c), Id(cols, r', c')) ==
            LineDistance(wrap, cols, c, c') + 2 * LineDistance(wrap, rows, r, r')
  {
    IdParts(cols, r, c);
    IdParts(cols, r', c');
    IdBound(rows, cols, r, c);
    IdBound(rows, cols, r', c');
  }

  ghost predicate Near(wrap: bool, rows: nat, cols: nat, l: IntLink, v: nat)
    requires v < rows * cols
  {
    l.a < rows * cols && l.b < rows * cols &&
    Distance(wrap, rows, cols, l.a, v) <= Distance(wrap, rows, cols, l.b, v) + l.weight &&
    Distance(wrap, rows, cols, l.b, v) <= Distance(wrap, rows, cols, l.a, v) + l.weight
  }

  lemma RowLinkNear(wrap: bool, rows: nat, cols: nat, l: IntLink, r: nat, c: nat, r': nat, c': nat)
    requires r < rows && IsRowLink(wrap, cols, l, r, c) && r' < rows && c' < cols
    ensures Id(cols, r', c') < rows * cols && Near(wrap, rows, cols, l, Id(cols, r', c'))
  {
    hide Distance, Id;
    LineStep(wrap, cols, c, c');
    DistanceAt(wrap, rows, cols, r, c, r', c');
    DistanceAt(wrap, rows, cols, r, Succ(cols, c), r', c');
  }

  lemma ColumnLinkNear(wrap: bool, rows: nat, cols: nat, l: IntLink, r: nat, c: nat, r': nat, c': nat)
    requires IsColumnLink(wrap, rows, cols, l, r, c) && r' < rows && c' < cols
    ensures Id(cols, r', c') < rows * cols && Near(wrap, rows, cols, l, Id(cols, r', c'))
  {
    hide Distance, Id;
    LineStep(wrap, rows, r, r');
    DistanceAt(wrap, rows, cols, r, c, r', c');
    DistanceAt(wrap, rows, cols, Succ(rows, r), c, r', c');
  }

  lemma LinkNear(wrap: bool, rows: nat, cols: nat, links: seq<IntLink>, l: IntLink, v: nat)
    requires IsGrid(wrap, rows, cols, links) && l in links && v < rows * cols
    ensures Near(wrap, rows, cols, l, v)
  {
    hide Near, IsRowLink, IsColumnLink, HasRowLink, HasColumnLink;
    RowInRange(rows, cols, v);
    if r: nat, c: nat :| r < rows && IsRowLink(wrap, cols, l, r, c) {
      RowLinkNear(wrap, rows, cols, l, r, c, v / cols, v % cols);
    } else {
      var r: nat, c: nat :| IsColumnLink(wrap, rows, cols, l, r, c);
      ColumnLinkNear(wrap, rows, cols, l, r, c, v / cols, v % cols);
    }
  }

  // ----- The cheapest paths -----

  // No path is cheaper than the distance.
  lemma {:induction false} DistanceIsLeast(wrap: bool, rows: nat, cols: nat, links: seq<IntLink>, path: seq<Hop>, u: nat, v: nat)
    requires IsGrid(wrap, rows, cols, links) && u < rows * cols && v < rows * cols
    requires IsPath(links, path, u, v)
    ensures Distance(wrap, rows, cols, u, v) <= Cost(path)
    decreases |path|
  {
    hide Distance, IsGrid;
    if path == [] {
      NoDistance(wrap, rows, cols, u);
    } else {
      LinkNear(wrap, rows, cols, links, path[0].link, v);
      DistanceIsLeast(wrap, rows, cols, links, path[1..], To(path[0]), v);
    }
  }

  lemma NoDistance(wrap: bool, rows: nat, cols: nat, u: nat)
    requires u < rows * cols
    ensures Distance(wrap, rows, cols, u, u) == 0
  {
    RowInRange(rows, cols, u);
  }

  // A link that leads closer.
  lemma Closer(wrap: bool, rows: nat, cols: nat, links: seq<IntLink>, u: nat, v: nat) returns (h: Hop)
    requires IsGrid(wrap, rows, cols, links) && u < rows * cols && v < rows * cols && u != v
    ensures h.link in links && From(h) == u && To(h) < rows * cols
    ensures Distance(wrap, rows, cols, u, v) == h.link.weight + Distance(wrap, rows, cols, To(h), v)
  {
    hide Distance, IsGrid;
    RowInRange(rows, cols, u);
    RowInRange(rows, cols, v);
    var r, c, r', c' := u / cols, u % cols, v / cols, v % cols;
    if c != c' {
      h := CloserInRow(wrap, rows, cols, links, r, c, r', c');
    } else {
      h := CloserInColumn(wrap, rows, cols, links, r, c, r', c');
    }
  }

  lemma CloserInRow(wrap: bool, rows: nat, cols: nat, links: seq<IntLink>, r: nat, c: nat, r': nat, c': nat) returns (h: Hop)
    requires IsGrid(wrap, rows, cols, links) && r < rows && r' < rows && c < cols && c' < cols && c != c'
    ensures h.link in links && From(h) == Id(cols, r, c) && To(h) < rows * cols && h.link.weight == 1
    ensures Id(cols, r, c) < rows * cols && Id(cols, r', c') < rows * cols
    ensures Distance(wrap, rows, cols, Id(cols, r, c), Id(cols, r', c')) == h.link.weight + Distance(wrap, rows, cols, To(h), Id(cols, r', c'))
  {
    hide Distance, Id, LineDistance;
    var x := LineCloser(wrap, cols, c, c');
    var at := if Linked(wrap, cols, c) && x == Succ(cols, c) then c else x;
    assert HasRowLink(wrap, cols, links, r, at);
    var l :| l in links && IsRowLink(wrap, cols, l, r, at);
    h := Hop(l, l.a == Id(cols, r, c));
    DistanceAt(wrap, rows, cols, r, c, r', c');
    DistanceAt(wrap, rows, cols, r, x, r', c');
  }

  lemma CloserInColumn(wrap: bool, rows: nat, cols: nat, links: seq<IntLink>, r: nat, c: nat, r': nat, c': nat) returns (h: Hop)
    requires IsGrid(wrap, rows, cols, links) && r < rows && r' < rows && c < cols && c' < cols && r != r'
    ensures h.link in links && From(h) == Id(cols, r, c) && To(h) < rows * cols && h.link.weight == 2
    ensures Id(cols, r, c) < rows * cols && Id(cols, r', c') < rows * cols
    ensures Distance(wrap, rows, cols, Id(cols, r, c), Id(cols, r', c')) == h.link.weight + Distance(wrap, rows, cols, To(h), Id(cols, r', c'))
  {
    hide Distance, Id, LineDistance;
    var x := LineCloser(wrap, rows, r, r');
    var at := if Linked(wrap, rows, r) && x == Succ(rows, r) then r else x;
    assert HasColumnLink(wrap, rows, cols, links, at, c);
    var l :| l in links && IsColumnLink(wrap, rows, cols, l, at, c);
    h := Hop(l, l.a == Id(cols, r, c));
    DistanceAt(wrap, rows, cols, r, c, r', c');
    DistanceAt(wrap, rows, cols, x, c, r', c');
  }

  lemma {:induction false} DistanceIsReached(wrap: bool, rows: nat, cols: nat, links: seq<IntLink>, u: nat, v: nat) returns (path: seq<Hop>)
    requires IsGrid(wrap, rows, cols, links) && u < rows * cols && v < rows * cols
    ensures IsPath(links, path, u, v) && Cost(path) == Distance(wrap, rows, cols, u, v)
    decreases Distance(wrap, rows, cols, u, v)
  {
    hide Distance, IsGrid;
    if u == v {
      path := [];
      NoDistance(wrap, rows, cols, u);
    } else {
      var h := Closer(wrap, rows, cols, links, u, v);
      PositiveWeight(wrap, rows, cols, links, h.link);
      var rest := DistanceIsReached(wrap, rows, cols, links, To(h), v);
      path := [h] + rest;
      assert path[1..] == rest;
    }
  }

  lemma PositiveWeight(wrap: bool, rows: nat, cols: nat, links: seq<IntLink>, l: IntLink)
    requires IsGrid(wrap, rows, cols, links) && l in links
    ensures l.weight > 0
  {
  }

  // The cheapest way between two routers costs the distance in columns plus twice that in rows.
  lemma CheapestIsDistance(wrap: bool, rows: nat, cols: nat, links: seq<IntLink>, u: nat, v: nat)
    requires IsGrid(wrap, rows, cols, links) && u < rows * cols && v < rows * cols
    ensures IsCheapest(links, u, v, Distance(wrap, rows, cols, u, v))
  {
    hide IsGrid, Distance;
    var path := DistanceIsReached(wrap, rows, cols, links, u, v);
    forall path | IsPath(links, path, u, v)
      ensures Distance(wrap, rows, cols, u, v) <= Cost(path)
    {
      DistanceIsLeast(wrap, rows, cols, links, path, u, v);
    }
  }

  // ----- Building a grid link by link -----

  ghost predicate OnlyRowLinks(wrap: bool, rows: nat, cols: nat, links: seq<IntLink>) {
    forall l :: l in links ==> exists r: nat, c: nat :: r < rows && IsRowLink(wrap, cols, l, r, c)
  }

  ghost predicate OnlyColumnLinks(wrap: bool, rows: nat, cols: nat, links: seq<IntLink>) {
    forall l :: l in links ==> exists r: nat, c: nat :: IsColumnLink(wrap, rows, cols, l, r, c)
  }

  // All row links before position (r, c), row by row.
  ghost predicate RowsDone(wrap: bool, cols: nat, links: seq<IntLink>, r: nat, c: nat) {
    forall i: nat, j: nat :: Linked(wrap, cols, j) && (i < r || (i == r && j < c)) ==> HasRowLink(wrap, cols, links, i, j)
  }

  // All column links before position (r, c), column by column.
  ghost predicate ColumnsDone(wrap: bool, rows: nat, cols: nat, links: seq<IntLink>, r: nat, c: nat) {
    forall i: nat, j: nat :: Linked(wrap, rows, i) && j < cols && (j < c || (j == c && i < r)) ==> HasColumnLink(wrap, rows, cols, links, i, j)
  }

  ghost predicate Numbered(links: seq<IntLink>, base: nat) {
    forall k :: 0 <= k < |links| ==> links[k].id == base + k
  }

  // How many links a line of n routers has.
  function PerLine(wrap: bool, n: nat): nat {
    if wrap || n == 0 then n else n - 1
  }

  // The links come in the order of their places, row by row.
  ghost predicate RowByRow(wrap: bool, cols: nat, links: seq<IntLink>) {
    forall k :: 0 <= k < |links| ==>
      PerLine(wrap, cols) > 0 && IsRowLink(wrap, cols, links[k], k / PerLine(wrap, cols), k % PerLine(wrap, cols))
  }

  ghost predicate ColumnByColumn(wrap: bool, rows: nat, cols: nat, links: seq<IntLink>) {
    forall k :: 0 <= k < |links| ==>
      PerLine(wrap, rows) > 0 && IsColumnLink(wrap, rows, cols, links[k], k % PerLine(wrap, rows), k / PerLine(wrap, rows))
  }

  // First the row links and then the column links, each in order.
  ghost predicate InGridOrder(wrap: bool, rows: nat, cols: nat, links: seq<IntLink>) {
    var n := rows * PerLine(wrap, cols);
    n <= |links| && RowByRow(wrap, cols, links[..n]) && ColumnByColumn(wrap, rows, cols, links[n..])
  }

  lemma NextInRow(wrap: bool, cols: nat, links: seq<IntLink>, r: nat, c: nat, l: IntLink)
    requires RowByRow(wrap, cols, links) && IsRowLink(wrap, cols, l, r, c)
    requires c < PerLine(wrap, cols) && |links| == r * PerLine(wrap, cols) + c
    ensures RowByRow(wrap, cols, links + [l])
  {
    hide IsRowLink;
    DivModUnique(|links|, PerLine(wrap, cols), r, c);
  }

  lemma NextInColumn(wrap: bool, rows: nat, cols: nat, links: seq<IntLink>, r: nat, c: nat, l: IntLink)
    requires ColumnByColumn(wrap, rows, cols, links) && IsColumnLink(wrap, rows, cols, l, r, c)
    requires r < PerLine(wrap, rows) && |links| == c * PerLine(wrap, rows) + r
    ensures ColumnByColumn(wrap, rows, cols, links + [l])
  {
    hide IsColumnLink;
    DivModUnique(|links|, PerLine(wrap, rows), c, r);
  }

  lemma GridOrder(wrap: bool, rows: nat, cols: nat, rowLinks: seq<IntLink>, columnLinks: seq<IntLink>)
    requires RowByRow(wrap, cols, rowLinks) && ColumnByColumn(wrap, rows, cols, columnLinks)
    requires |rowLinks| == rows * PerLine(wrap, cols)
    ensures InGridOrder(wrap, rows, cols, rowLinks + columnLinks)
  {
    var links, n := rowLinks + columnLinks, |rowLinks|;
    assert links[..n] == rowLinks && links[n..] == columnLinks;
  }

  lemma AddRowLink(wrap: bool, rows: nat, cols: nat, links: seq<IntLink>, r: nat, c: nat, l: IntLink)
    requires OnlyRowLinks(wrap, rows, cols, links) && RowsDone(wrap, cols, links, r, c)
    requires r < rows && IsRowLink(wrap, cols, l, r, c)
    ensures OnlyRowLinks(wrap, rows, cols, links + [l]) && RowsDone(wrap, cols, links + [l], r, c + 1)
  {
    hide IsRowLink;
    forall i: nat, j: nat | Linked(wrap, cols, j) && (i < r || (i == r && j < c + 1))
      ensures HasRowLink(wrap, cols, links + [l], i, j)
    {
      if i == r && j == c {
        assert l in links + [l];
      } else {
        assert HasRowLink(wrap, cols, links, i, j);
        var x :| x in links && IsRowLink(wrap, cols, x, i, j);
        assert x in links + [l];
      }
    }
  }

  lemma AddColumnLink(wrap: bool, rows: nat, cols: nat, links: seq<IntLink>, r: nat, c: nat, l: IntLink)
    requires OnlyColumnLinks(wrap, rows, cols, links) && ColumnsDone(wrap, rows, cols, links, r, c)
    requires IsColumnLink(wrap, rows, cols, l, r, c)
    ensures OnlyColumnLinks(wrap, rows, cols, links + [l]) && ColumnsDone(wrap, rows, cols, links + [l], r + 1, c)
  {
    hide IsColumnLink;
    forall i: nat, j: nat | Linked(wrap, rows, i) && j < cols && (j < c || (j == c && i < r + 1))
      ensures HasColumnLink(wrap, rows, cols, links + [l], i, j)
    {
      if i == r && j == c {
        assert l in links + [l];
      } else {
        assert HasColumnLink(wrap, rows, cols, links, i, j);
        var x :| x in links && IsColumnLink(wrap, rows, cols, x, i, j);
        assert x in links + [l];
      }
    }
  }

  lemma NextRow(wrap: bool, cols: nat, links: seq<IntLink>, r: nat)
    requires RowsDone(wrap, cols, links, r, cols)
    ensures RowsDone(wrap, cols, links, r + 1, 0)
  {
  }

  lemma NextColumn(wrap: bool, rows: nat, cols: nat, links: seq<IntLink>, c: nat)
    requires ColumnsDone(wrap, rows, cols, links, rows, c)
    ensures ColumnsDone(wrap, rows, cols, links, 0, c + 1)
  {
  }

  lemma GridDone(wrap: bool, rows: nat, cols: nat, rowLinks: seq<IntLink>, columnLinks: seq<IntLink>)
    requires OnlyRowLinks(wrap, rows, cols, rowLinks) && RowsDone(wrap, cols, rowLinks, rows, 0)
    requires OnlyColumnLinks(wrap, rows, cols, columnLinks) && ColumnsDone(wrap, rows, cols, columnLinks, 0, cols)
    ensures IsGrid(wrap, rows, cols, rowLinks + columnLinks)
  {
    hide IsRowLink, IsColumnLink, Linked;
    var links := rowLinks + columnLinks;
    forall r: nat, c: nat | r < rows && Linked(wrap, cols, c)
      ensures HasRowLink(wrap, cols, links, r, c)
    {
      assert HasRowLink(wrap, cols, rowLinks, r, c);
      var x :| x in rowLinks && IsRowLink(wrap, cols, x, r, c);
      assert x in links;
    }
    forall r: nat, c: nat | Linked(wrap, rows, r) && c < cols
      ensures HasColumnLink(wrap, rows, cols, links, r, c)
    {
      assert HasColumnLink(wrap, rows, cols, columnLinks, r, c);
      var x :| x in columnLinks && IsColumnLink(wrap, rows, cols, x, r, c);
      assert x in links;
    }
  }

  // The grid of numRouters routers in numRows rows can be built.
  predicate Shaped(nodes: seq<Controller>, numRouters: nat, numRows: nat) {
    numRouters > 0 && 0 < numRows <= numRouters && numRouters / numRows * numRows == numRouters && Attachable(nodes, numRouters)
  }
}
