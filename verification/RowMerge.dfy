/** Merging cells into rows: `rows` (kate/recovery/src/data.rs). */
module RowMerge {
  import opened Bytes
  import opened Matrix
  import opened OrderedMap
  import opened Sorting

  type Content = b: seq<byte> | |b| == 80 witness ZeroBytes(80)

  /** A cell with its proof in front of its data. */
  datatype SingleCell = SingleCell(position: Position, content: Content) {
    function Data(): Chunk {
      content[48..]
    }
  }

  type Row = (u32, seq<byte>)

  /** Row by row, and by column within a row. */
  predicate Precedes(a: SingleCell, b: SingleCell) {
    var p, q := a.position, b.position;
    p.row < q.row || (p.row == q.row && p.col < q.col)
  }

  function MergedRows(cells: seq<SingleCell>): seq<Row> {
    if cells == [] then [] else
    var last := cells[|cells| - 1];
    Append(MergedRows(cells[..|cells| - 1]), last.position.row, last.Data())
  }

  /** `retain` on the row length. */
  function Retain(m: seq<Row>, size: nat): seq<Row> {
    if m == [] then [] else (if |m[0].1| == size then [m[0]] else []) + Retain(m[1..], size)
  }

  function CompleteRows(dims: Dimensions, cells: seq<SingleCell>): seq<Row> {
    Retain(MergedRows(Sort(Precedes, cells)), dims.RowByteSize())
  }

  method Rows(dims: Dimensions, cells: seq<SingleCell>) returns (rows: seq<Row>)
    ensures rows == CompleteRows(dims, cells)
  {
    var sorted := Sort(Precedes, cells);
    rows := [];
    for i := 0 to |sorted|
      invariant rows == MergedRows(sorted[..i])
    {
      assert sorted[..i + 1][..i] == sorted[..i];
      rows := Append(rows, sorted[i].position.row, sorted[i].Data());
    }
    assert sorted[..|sorted|] == sorted;
    rows := Retain(rows, dims.RowByteSize());
  }

  // ---------- What the result means ----------

  ghost predicate HasCellAt(cells: seq<SingleCell>, row: u32, col: nat) {
    exists x :: x in cells && x.position.row == row && x.position.col == col
  }

  ghost predicate IsComplete(cells: seq<SingleCell>, row: u32, cols: nat) {
    forall c :: 0 <= c < cols ==> HasCellAt(cells, row, c)
  }

  /** The bytes of a row are those behind the proofs of its cells, in column order. */
  ghost predicate HoldsRow(bytes: seq<byte>, cells: seq<SingleCell>, row: u32, cols: nat) {
    && |bytes| == 32 * cols
    && forall x :: x in cells && x.position.row == row ==>
      (x.position.col < cols && bytes[32 * x.position.col..32 * x.position.col + 32] == x.content[48..80])
  }

  ghost predicate DistinctPositions(cells: seq<SingleCell>) {
    forall i, j :: 0 <= i < j < |cells| ==> cells[i].position != cells[j].position
  }

  ghost predicate InWidth(cells: seq<SingleCell>, cols: nat) {
    forall x :: x in cells ==> x.position.col < cols
  }

  // ---------- Sorting and merging ----------

  lemma SortedCells(cells: seq<SingleCell>)
    requires DistinctPositions(cells)
    ensures StrictlyInOrder(Precedes, Sort(Precedes, cells))
    ensures forall x :: x in Sort(Precedes, cells) <==> x in cells
  {
    assert IsOrder(Precedes);
    SortOrders(Precedes, cells);
    SortStrictly(Precedes, cells);
  }

  /** The cells of one row, in the given order. */
  function InRow(cells: seq<SingleCell>, row: u32): seq<SingleCell> {
    if cells == [] then [] else
    var last := cells[|cells| - 1];
    var front := InRow(cells[..|cells| - 1], row);
    if last.position.row == row then front + [last] else front
  }

  function Join(cells: seq<SingleCell>): (b: seq<byte>)
    ensures |b| == 32 * |cells|
  {
    if cells == [] then [] else Join(cells[..|cells| - 1]) + cells[|cells| - 1].Data()
  }

  /** The map holds, for every row, the data of its cells in order. */
  lemma {:induction false} MergedRowsAt(cells: seq<SingleCell>, row: u32)
    ensures KeysAscend(MergedRows(cells)) && Lookup(MergedRows(cells), row) == Join(InRow(cells, row))
  {
    hide Append;
    if cells != [] {
      var front, last := cells[..|cells| - 1], cells[|cells| - 1];
      MergedRowsAt(front, row);
      AppendKeys(MergedRows(front), last.position.row, last.Data());
      AppendAt(MergedRows(front), last.position.row, last.Data(), row);
      assert (InRow(front, row) + [last])[..|InRow(front, row)|] == InRow(front, row);
    }
  }

  lemma {:induction false} RetainHolds(m: seq<Row>, size: nat)
    ensures forall r :: r in Retain(m, size) <==> r in m && |r.1| == size
  {
    if m != [] {
      RetainHolds(m[1..], size);
      assert m == [m[0]] + m[1..];
    }
  }

  lemma {:induction false} RetainSelects(m: seq<Row>, size: nat)
    requires KeysAscend(m)
    ensures KeysAscend(Retain(m, size))
    ensures forall r :: r in Retain(m, size) <==> r in m && |r.1| == size
  {
    RetainHolds(m, size);
    if m != [] {
      RetainSelects(m[1..], size);
      var t := Retain(m[1..], size);
      forall i | 0 <= i < |t|
        ensures m[0].0 < t[i].0
      {
        assert t[i] in m[1..];
      }
    }
  }

  // ---------- A row of ascending columns ----------

  ghost predicate AscendingColumns(s: seq<SingleCell>) {
    forall i, j :: 0 <= i < j < |s| ==> s[i].position.col < s[j].position.col
  }

  lemma {:induction false} InRowAscends(s: seq<SingleCell>, row: u32)
    requires StrictlyInOrder(Precedes, s)
    ensures AscendingColumns(InRow(s, row))
    ensures forall x :: x in InRow(s, row) <==> x in s && x.position.row == row
  {
    if s != [] {
      var front, last := s[..|s| - 1], s[|s| - 1];
      InRowAscends(front, row);
      assert s == front + [last];
      var t := InRow(front, row);
      forall i | 0 <= i < |t|
        ensures last.position.row == row ==> t[i].position.col < last.position.col
      {
        assert t[i] in front;
      }
    }
  }

  /** Ascending columns below the width fill the row exactly when all columns occur, and then each is in its place. */
  lemma ColumnsInPlace(s: seq<SingleCell>, cols: nat)
    requires AscendingColumns(s) && forall i :: 0 <= i < |s| ==> s[i].position.col < cols
    requires |s| == cols || forall c :: 0 <= c < cols ==> HasColumn(s, c)
    ensures |s| == cols && forall k :: 0 <= k < cols ==> s[k].position.col == k
  {
    forall k | 0 <= k < |s|
      ensures s[k].position.col == k
    {
      ColumnAtLeast(s, k);
      if |s| == cols {
        ColumnAtMost(s, k, cols);
      } else {
        ColumnIs(s, k, cols);
      }
    }
    if s != [] {
      assert s[|s| - 1].position.col == |s| - 1;
    }
    if (forall c :: 0 <= c < cols ==> HasColumn(s, c)) && cols > 0 {
      assert HasColumn(s, cols - 1);
    }
  }

  ghost predicate HasColumn(s: seq<SingleCell>, c: nat) {
    exists i :: 0 <= i < |s| && s[i].position.col == c
  }

  lemma {:induction false} ColumnAtLeast(s: seq<SingleCell>, k: nat)
    requires AscendingColumns(s) && k < |s|
    ensures s[k].position.col >= k
  {
    if k > 0 {
      ColumnAtLeast(s, k - 1);
    }
  }

  lemma {:induction false} ColumnAtMost(s: seq<SingleCell>, k: nat, cols: nat)
    requires AscendingColumns(s) && k < |s| == cols && forall i :: 0 <= i < |s| ==> s[i].position.col < cols
    ensures s[k].position.col <= k
    decreases cols - k
  {
    if k + 1 < |s| {
      ColumnAtMost(s, k + 1, cols);
    }
  }

  lemma {:induction false} ColumnIs(s: seq<SingleCell>, k: nat, cols: nat)
    requires AscendingColumns(s) && k < |s| && s[k].position.col < cols
    requires forall c :: 0 <= c < cols ==> HasColumn(s, c)
    ensures s[k].position.col == k
  {
    ColumnAtLeast(s, k);
    assert HasColumn(s, k);
    var i :| 0 <= i < |s| && s[i].position.col == k;
    if i < k {
      ColumnIs(s, i, cols);
    } else if i > k {
      assert s[k].position.col < s[i].position.col;
    }
  }

  lemma {:induction false} JoinAt(s: seq<SingleCell>, k: nat)
    requires k < |s|
    ensures Join(s)[32 * k..32 * k + 32] == s[k].Data()
  {
    var front := s[..|s| - 1];
    if k < |front| {
      JoinAt(front, k);
      assert Join(s)[32 * k..32 * k + 32] == Join(front)[32 * k..32 * k + 32];
    }
  }

  lemma JoinHoldsRow(cells: seq<SingleCell>, s: seq<SingleCell>, row: u32, cols: nat)
    requires |s| == cols && forall k :: 0 <= k < cols ==> s[k].position.col == k
    requires forall x :: x in s <==> x in cells && x.position.row == row
    ensures HoldsRow(Join(s), cells, row, cols)
  {
    hide Join;
    forall x | x in cells && x.position.row == row
      ensures x.position.col < cols && Join(s)[32 * x.position.col..32 * x.position.col + 32] == x.content[48..80]
    {
      var k :| 0 <= k < |s| && s[k] == x;
      JoinAt(s, k);
    }
  }

  /** The data collected for a row has the size of a row exactly when the row is complete, and is then that row. */
  lemma RowSizeDecides(cells: seq<SingleCell>, s: seq<SingleCell>, row: u32, cols: nat)
    requires AscendingColumns(s) && InWidth(cells, cols)
    requires forall x :: x in s <==> x in cells && x.position.row == row
    ensures |Join(s)| == 32 * cols <==> IsComplete(cells, row, cols)
    ensures IsComplete(cells, row, cols) ==> HoldsRow(Join(s), cells, row, cols)
  {
    hide Join, HoldsRow;
    forall c: nat
      ensures HasColumn(s, c) <==> HasCellAt(cells, row, c)
    {
      ColumnHasCell(cells, s, row, c);
    }
    forall i | 0 <= i < |s|
      ensures s[i].position.col < cols
    {
      assert s[i] in s;
    }
    if |s| == cols || IsComplete(cells, row, cols) {
      ColumnsInPlace(s, cols);
      forall c | 0 <= c < cols
        ensures HasColumn(s, c)
      {
        assert s[c].position.col == c;
      }
      JoinHoldsRow(cells, s, row, cols);
    }
  }

  lemma ColumnHasCell(cells: seq<SingleCell>, s: seq<SingleCell>, row: u32, c: nat)
    requires forall x :: x in s <==> x in cells && x.position.row == row
    ensures HasColumn(s, c) <==> HasCellAt(cells, row, c)
  {
    if HasColumn(s, c) {
      var i :| 0 <= i < |s| && s[i].position.col == c;
      assert s[i] in s;
    }
    if HasCellAt(cells, row, c) {
      var x :| x in cells && x.position.row == row && x.position.col == c;
      assert x in s;
    }
  }

  /** For cells at distinct positions inside the width: the rows returned ascend, they are exactly the complete ones,
      and each holds the data of its cells in column order. */
  lemma RowsAreTheCompleteOnes(dims: Dimensions, cells: seq<SingleCell>, row: u32)
    requires DistinctPositions(cells) && InWidth(cells, dims.cols)
    ensures var rows := CompleteRows(dims, cells);
      && KeysAscend(rows)
      && (HasKey(rows, row) <==> IsComplete(cells, row, dims.cols))
      && forall i :: 0 <= i < |rows| && rows[i].0 == row ==> HoldsRow(rows[i].1, cells, row, dims.cols)
  {
    var sorted := Sort(Precedes, cells);
    var m, s := MergedRows(sorted), InRow(sorted, row);
    SortedCells(cells);
    MergedRowsAt(sorted, row);
    InRowAscends(sorted, row);
    RowSizeDecides(cells, s, row, dims.cols);
    RetainSelects(m, dims.RowByteSize());
    var rows := CompleteRows(dims, cells);
    hide MergedRows, Sort, InRow, Join, Retain, Lookup, IsComplete, HoldsRow;
    if IsComplete(cells, row, dims.cols) {
      if !HasKey(m, row) {
        LookupMissing(m, row);
      }
      var i :| 0 <= i < |m| && m[i].0 == row;
      LookupAt(m, i);
      assert m[i] in rows;
    }
    forall i | 0 <= i < |rows| && rows[i].0 == row
      ensures IsComplete(cells, row, dims.cols) && HoldsRow(rows[i].1, cells, row, dims.cols)
    {
      assert rows[i] in m;
      var k :| 0 <= k < |m| && m[k] == rows[i];
      LookupAt(m, k);
    }
  }
}
