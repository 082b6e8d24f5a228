/** The mesh: neighbouring routers of a row or a column are linked. */
module Mesh {
  import opened Options
  import opened Network
  import opened Grid

  // The east-west links, row by row.
  method RowLinks(rows: nat, cols: nat, base: nat) returns (links: seq<IntLink>)
    requires cols > 0
    ensures OnlyRowLinks(false, rows, cols, links) && RowsDone(false, cols, links, rows, 0) && RowByRow(false, cols, links)
    ensures Numbered(links, base) && |links| == rows * (cols - 1) && forall l :: l in links ==> l.latency == 1
  {
    hide IsRowLink, OnlyRowLinks, RowsDone, RowByRow;
    links := [];
    Nothing(rows, cols);
    var row := 0;
    while row < rows
      invariant row <= rows
      invariant RowByRow(false, cols, links) && OnlyRowLinks(false, rows, cols, links) && RowsDone(false, cols, links, row, 0)
      invariant Numbered(links, base) && |links| == row * (cols - 1) && forall l :: l in links ==> l.latency == 1
    {
      var col := 0;
      while col < cols
        invariant col <= cols
        invariant RowByRow(false, cols, links) && OnlyRowLinks(false, rows, cols, links) && RowsDone(false, cols, links, row, col)
        invariant Numbered(links, base) && forall l :: l in links ==> l.latency == 1
        invariant |links| == row * (cols - 1) + if col < cols then col else cols - 1
      {
        if col + 1 < cols {
          var eastId := col + row * cols;
          var westId := (col + 1) + row * cols;
          var link := IntLink(base + |links|, eastId, westId, 1, 1);
          EastWest(cols, row, col, link);
          NextInRow(false, cols, links, row, col, link);
          AddRowLink(false, rows, cols, links, row, col, link);
          links := links + [link];
        } else {
          LastOfRow(cols, links, row, col);
        }
        col := col + 1;
      }
      NextRow(false, cols, links, row);
      row := row + 1;
    }
  }

  lemma Nothing(rows: nat, cols: nat)
    ensures RowByRow(false, cols, []) && ColumnByColumn(false, rows, cols, [])
    ensures OnlyRowLinks(false, rows, cols, []) && RowsDone(false, cols, [], 0, 0)
    ensures OnlyColumnLinks(false, rows, cols, []) && ColumnsDone(false, rows, cols, [], 0, 0)
  {
  }

  lemma EastWest(cols: nat, row: nat, col: nat, l: IntLink)
    requires col + 1 < cols && l.weight == 1 && l.a == Id(cols, row, col) && l.b == Id(cols, row, col + 1)
    ensures IsRowLink(false, cols, l, row, col)
  {
  }

  lemma LastOfRow(cols: nat, links: seq<IntLink>, row: nat, col: nat)
    requires RowsDone(false, cols, links, row, col) && col + 1 >= cols
    ensures RowsDone(false, cols, links, row, col + 1)
  {
  }

  // The north-south links, column by column.
  method ColumnLinks(rows: nat, cols: nat, base: nat) returns (links: seq<IntLink>)
    requires rows > 0
    ensures OnlyColumnLinks(false, rows, cols, links) && ColumnsDone(false, rows, cols, links, 0, cols) && ColumnByColumn(false, rows, cols, links)
    ensures Numbered(links, base) && |links| == cols * (rows - 1) && forall l :: l in links ==> l.latency == 1
  {
    hide IsColumnLink, OnlyColumnLinks, ColumnsDone, ColumnByColumn;
    links := [];
    Nothing(rows, cols);
    var col := 0;
    while col < cols
      invariant col <= cols
      invariant ColumnByColumn(false, rows, cols, links) && OnlyColumnLinks(false, rows, cols, links) && ColumnsDone(false, rows, cols, links, 0, col)
      invariant Numbered(links, base) && |links| == col * (rows - 1) && forall l :: l in links ==> l.latency == 1
    {
      var row := 0;
      while row < rows
        invariant row <= rows
        invariant ColumnByColumn(false, rows, cols, links) && OnlyColumnLinks(false, rows, cols, links) && ColumnsDone(false, rows, cols, links, row, col)
        invariant Numbered(links, base) && forall l :: l in links ==> l.latency == 1
        invariant |links| == col * (rows - 1) + if row < rows then row else rows - 1
      {
        if row + 1 < rows {
          var northId := col + row * cols;
          var southId := col + (row + 1) * cols;
          var link := IntLink(base + |links|, northId, southId, 2, 1);
          NorthSouth(rows, cols, row, col, link);
          NextInColumn(false, rows, cols, links, row, col, link);
          AddColumnLink(false, rows, cols, links, row, col, link);
          links := links + [link];
        } else {
          LastOfColumn(rows, cols, links, row, col);
        }
        row := row + 1;
      }
      NextColumn(false, rows, cols, links, col);
      col := col + 1;
    }
  }

  lemma NorthSouth(rows: nat, cols: nat, row: nat, col: nat, l: IntLink)
    requires row + 1 < rows && col < cols && l.weight == 2 && l.a == Id(cols, row, col) && l.b == Id(cols, row + 1, col)
    ensures IsColumnLink(false, rows, cols, l, row, col)
  {
  }

  lemma LastOfColumn(rows: nat, cols: nat, links: seq<IntLink>, row: nat, col: nat)
    requires ColumnsDone(false, rows, cols, links, row, col) && row + 1 >= rows
    ensures ColumnsDone(false, rows, cols, links, row + 1, col)
  {
  }

  // Fails, as the assertions and the divisions of the builder do, exactly when the routers do
  // not form a full grid or a controller left over is not a DMA controller.
  method MakeTopology(nodes: seq<Controller>, numRouters: nat, numRows: nat) returns (r: Option<(seq<IntLink>, seq<ExtLink>)>)
    ensures r.Some? <==> Shaped(nodes, numRouters, numRows)
    ensures r.Some? ==>
              var cols := numRouters / numRows;
              var (intLinks, extLinks) := r.value;
              extLinks == ExtLinks(nodes, numRouters) && IsGrid(false, numRows, cols, intLinks) && InGridOrder(false, numRows, cols, intLinks) &&
              Numbered(intLinks, |extLinks|) && |intLinks| == numRows * (cols - 1) + cols * (numRows - 1) &&
              forall l :: l in intLinks ==> l.latency == 1
  {
    hide IsGrid, Attachable, ExtLinks, OnlyRowLinks, OnlyColumnLinks, RowsDone, ColumnsDone, RowByRow, ColumnByColumn, InGridOrder;
    if numRouters == 0 || numRows == 0 || numRows > numRouters {
      return None;
    }
    var numColumns := numRouters / numRows;
    if numColumns * numRows != numRouters {
      return None;
    }
    var attached := Attach(nodes, numRouters);
    if attached.None? {
      return None;
    }
    var extLinks := attached.value;
    var rowLinks := RowLinks(numRows, numColumns, |extLinks|);
    var columnLinks := ColumnLinks(numRows, numColumns, |extLinks| + |rowLinks|);
    GridDone(false, numRows, numColumns, rowLinks, columnLinks);
    GridOrder(false, numRows, numColumns, rowLinks, columnLinks);
    r := Some((rowLinks + columnLinks, extLinks));
  }

  // Between any two routers the cheapest path costs |columns apart| + 2 * |rows apart|.
  lemma CheapestPath(numRows: nat, cols: nat, links: seq<IntLink>, u: nat, v: nat)
    requires IsGrid(false, numRows, cols, links) && u < numRows * cols && v < numRows * cols
    ensures cols > 0 && IsCheapest(links, u, v, Gap(u % cols, v % cols) + 2 * Gap(u / cols, v / cols))
  {
    hide IsGrid, IsCheapest;
    RowInRange(numRows, cols, u);
    CheapestIsDistance(false, numRows, cols, links, u, v);
  }
}
