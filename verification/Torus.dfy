/** The torus: as the mesh, and the last router of every row and column is linked to the first. */
module Torus {
  import opened Options
  import opened Network
  import opened Grid

  // The east-west links, row by row.
  method RowLinks(rows: nat, cols: nat, base: nat) returns (links: seq<IntLink>)
    ensures OnlyRowLinks(true, rows, cols, links) && RowsDone(true, cols, links, rows, 0) && RowByRow(true, cols, links)
    ensures Numbered(links, base) && |links| == rows * cols && forall l :: l in links ==> l.latency == 2
  {
    hide IsRowLink, OnlyRowLinks, RowsDone, RowByRow;
    links := [];
    Nothing(rows, cols);
    var row := 0;
    while row < rows
      invariant row <= rows
      invariant RowByRow(true, cols, links) && OnlyRowLinks(true, rows, cols, links) && RowsDone(true, cols, links, row, 0)
      invariant Numbered(links, base) && |links| == row * cols && forall l :: l in links ==> l.latency == 2
    {
      var col := 0;
      while col < cols
        invariant col <= cols
        invariant RowByRow(true, cols, links) && OnlyRowLinks(true, rows, cols, links) && RowsDone(true, cols, links, row, col)
        invariant Numbered(links, base) && forall l :: l in links ==> l.latency == 2
        invariant |links| == row * cols + col
      {
        var westId := col + row * cols;
        var eastId;
        if col + 1 < cols {
          eastId := (col + 1) + row * cols;
        } else {
          eastId := row * cols;
        }
        var link := IntLink(base + |links|, eastId, westId, 1, 2);
        EastWest(cols, row, col, link);
        NextInRow(true, cols, links, row, col, link);
        AddRowLink(true, rows, cols, links, row, col, link);
        links := links + [link];
        col := col + 1;
      }
      NextRow(true, cols, links, row);
      row := row + 1;
    }
  }

  lemma Nothing(rows: nat, cols: nat)
    ensures RowByRow(true, cols, []) && ColumnByColumn(true, rows, cols, [])
    ensures OnlyRowLinks(true, rows, cols, []) && RowsDone(true, cols, [], 0, 0)
    ensures OnlyColumnLinks(true, rows, cols, []) && ColumnsDone(true, rows, cols, [], 0, 0)
  {
  }

  lemma EastWest(cols: nat, row: nat, col: nat, l: IntLink)
    requires col < cols && l.weight == 1 && l.b == Id(cols, row, col)
    requires l.a == if col + 1 < cols then Id(cols, row, col + 1) else Id(cols, row, 0)
    ensures IsRowLink(true, cols, l, row, col)
  {
  }

  // The north-south links, column by column.
  method ColumnLinks(rows: nat, cols: nat, base: nat) returns (links: seq<IntLink>)
    ensures OnlyColumnLinks(true, rows, cols, links) && ColumnsDone(true, rows, cols, links, 0, cols) && ColumnByColumn(true, rows, cols, links)
    ensures Numbered(links, base) && |links| == cols * rows && forall l :: l in links ==> l.latency == 2
  {
    hide IsColumnLink, OnlyColumnLinks, ColumnsDone, ColumnByColumn;
    links := [];
    Nothing(rows, cols);
    var col := 0;
    while col < cols
      invariant col <= cols
      invariant ColumnByColumn(true, rows, cols, links) && OnlyColumnLinks(true, rows, cols, links) && ColumnsDone(true, rows, cols, links, 0, col)
      invariant Numbered(links, base) && |links| == col * rows && forall l :: l in links ==> l.latency == 2
    {
      var row := 0;
      while row < rows
        invariant row <= rows
        invariant ColumnByColumn(true, rows, cols, links) && OnlyColumnLinks(true, rows, cols, links) && ColumnsDone(true, rows, cols, links, row, col)
        invariant Numbered(links, base) && forall l :: l in links ==> l.latency == 2
        invariant |links| == col * rows + row
      {
        var northId := col + row * cols;
        var southId;
        if row + 1 < rows {
          southId := col + (row + 1) * cols;
        } else {
          southId := col;
        }
        var link := IntLink(base + |links|, northId, southId, 2, 2);
        NorthSouth(rows, cols, row, col, link);
        NextInColumn(true, rows, cols, links, row, col, link);
        AddColumnLink(true, rows, cols, links, row, col, link);
        links := links + [link];
        row := row + 1;
      }
      NextColumn(true, rows, cols, links, col);
      col := col + 1;
    }
  }

  lemma NorthSouth(rows: nat, cols: nat, row: nat, col: nat, l: IntLink)
    requires row < rows && col < cols && l.weight == 2 && l.a == Id(cols, row, col)
    requires l.b == if row + 1 < rows then Id(cols, row + 1, col) else Id(cols, 0, col)
    ensures IsColumnLink(true, rows, cols, l, row, col)
  {
  }

  method MakeTopology(nodes: seq<Controller>, numRouters: nat, numRows: nat) returns (r: Option<(seq<IntLink>, seq<ExtLink>)>)
    ensures r.Some? <==> Shaped(nodes, numRouters, numRows)
    ensures r.Some? ==>
              var cols := numRouters / numRows;
              var (intLinks, extLinks) := r.value;
              extLinks == ExtLinks(nodes, numRouters) && IsGrid(true, numRows, cols, intLinks) && InGridOrder(true, numRows, cols, intLinks) &&
              Numbered(intLinks, |extLinks|) && |intLinks| == 2 * numRouters &&
              forall l :: l in intLinks ==> l.latency == 2
  {
    hide IsGrid, Attachable, ExtLinks, OnlyRowLinks, OnlyColumnLinks, RowsDone, ColumnsDone, RowByRow, ColumnByColumn, InGridOrder;
    if numRouters == 0 || numRows == 0 || numRows > numRouters {
      return None;
    }
    var numColumns := numRouters / numRows;
    if numColumns * numRows != numRouters {
      return None;
    }
    var attached := Attach(nodes, numRouters);
    if attached.None? {
      return None;
    }
    var extLinks := attached.value;
    var rowLinks := RowLinks(numRows, numColumns, |extLinks|);
    var columnLinks := ColumnLinks(numRows, numColumns, |extLinks| + |rowLinks|);
    GridDone(true, numRows, numColumns, rowLinks, columnLinks);
    GridOrder(true, numRows, numColumns, rowLinks, columnLinks);
    r := Some((rowLinks + columnLinks, extLinks));
  }

  // Between any two routers the cheapest path goes round each ring the shorter way.
  lemma CheapestPath(numRows: nat, cols: nat, links: seq<IntLink>, u: nat, v: nat)
    requires IsGrid(true, numRows, cols, links) && u < numRows * cols && v < numRows * cols
    ensures (
      RowInRange(numRows, cols, u);
      RowInRange(numRows, cols, v);
      IsCheapest(links, u, v, LineDistance(true, cols, u % cols, v % cols) + 2 * LineDistance(true, numRows, u / cols, v / cols)))
  {
    hide IsGrid, IsCheapest;
    RowInRange(numRows, cols, u);
    RowInRange(numRows, cols, v);
    CheapestIsDistance(true, numRows, cols, links, u, v);
  }
}
