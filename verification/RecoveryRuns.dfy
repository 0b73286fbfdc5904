/** The recovery operations as the source runs them (kate/recovery/src/com.rs), each proved to compute the function
    that specifies it; the order in which a hash map yields its values does not matter. */
module RecoveryRuns {
  import opened Results
  import opened Bytes
  import opened Field
  import opened Division
  import opened DataLookup
  import opened Matrix
  import opened Grouping
  import opened Unflattening
  import opened Recovery

  // ---------- The order of the cells of a column is irrelevant ----------

  lemma {:induction false} FindRowIs(cells: seq<DataCell>, row: nat, data: Chunk)
    requires forall c :: c in cells && c.position.row == row ==> c.data == data
    ensures FindRow(cells, row) ==
      if exists c :: c in cells && c.position.row == row then ScalarFromBytes(data) else None
  {
    if cells != [] && cells[0].position.row != row {
      FindRowIs(cells[1..], row, data);
      assert cells == [cells[0]] + cells[1..];
    }
  }

  lemma FindRowInEnumeration(cells: seq<DataCell>, column: Column, row: u32)
    requires Enumerates(cells, column) && forall r :: r in column ==> column[r].position.row == r
    ensures FindRow(cells, row) == if row in column then ScalarFromBytes(column[row].data) else None
  {
    FindRowIs(cells, row, if row in column then column[row].data else ZeroBytes(32));
  }

  /** Any two enumerations of one column reconstruct alike. */
  lemma OrderIsIrrelevant(rowCount: u32, a: seq<DataCell>, b: seq<DataCell>, column: Column)
    requires Enumerates(a, column) && Enumerates(b, column) && column.Keys != {}
    requires forall r :: r in column ==> column[r].position.row == r
    requires forall r, s :: r in column && s in column ==> column[r].position.col == column[s].position.col
    ensures ReconstructColumn(rowCount, a) == ReconstructColumn(rowCount, b)
  {
    forall i: u32
      ensures FindRow(a, i) == FindRow(b, i)
    {
      FindRowInEnumeration(a, column, i);
      FindRowInEnumeration(b, column, i);
    }
    assert SubsetOf(a, rowCount) == SubsetOf(b, rowCount);
    var r :| r in column.Keys;
    EnumerationInOneColumn(a, column, r);
    EnumerationInOneColumn(b, column, r);
    hide FindRow, SubsetOf, SameColumn, Enumerates;
  }

  lemma EnumerationInOneColumn(cells: seq<DataCell>, column: Column, r: u32)
    requires Enumerates(cells, column) && r in column
    requires forall r, s :: r in column && s in column ==> column[r].position.col == column[s].position.col
    ensures SameColumn(cells)
  {
    assert column[r] in cells;
    assert cells[0] in cells;
  }

  lemma {:induction false} ValuesByRowEnumerates(column: Column, n: nat)
    requires n <= 0x1_0000_0000
    requires forall r :: r in column ==> column[r].position.row == r
    ensures var low := set r | r in column && r < n; |ValuesByRow(column, n)| == |low|
    ensures forall c :: c in ValuesByRow(column, n) ==> c.position.row in column && column[c.position.row] == c
    ensures forall r :: r in column && r < n ==> column[r] in ValuesByRow(column, n)
  {
    var low := set r | r in column && r < n;
    if n == 0 {
      assert low == {};
    } else {
      ValuesByRowEnumerates(column, n - 1);
      RowsBelow(column, n - 1);
    }
  }

  lemma RowsBelow(column: Column, n: u32)
    ensures var before, low := set r | r in column && r < n, set r | r in column && r < n + 1;
      |low| == |before| + if n in column then 1 else 0
  {
    var before, low := set r | r in column && r < n, set r | r in column && r < n + 1;
    assert low == if n in column then before + {n} else before;
  }

  lemma RowOrderEnumerates(column: Column, n: nat)
    requires n <= 0x1_0000_0000
    requires forall r :: r in column ==> column[r].position.row == r && r < n
    ensures Enumerates(ValuesByRow(column, n), column)
  {
    ValuesByRowEnumerates(column, n);
    assert (set r | r in column && r < n) == column.Keys;
    hide ValuesByRow;
  }

  /** What the nested maps always satisfy. */
  ghost predicate WellKeyed(dims: Dimensions, columns: Columns) {
    forall col :: col in columns ==> ColumnKeyed(dims, col, columns[col])
  }

  ghost predicate ColumnKeyed(dims: Dimensions, col: u16, column: Column) {
    && col < dims.cols && column.Keys != {}
    && forall r :: r in column ==> column[r].position == Position(r, col) && r < dims.ExtendedRows()
  }

  lemma {:induction false} MapCellsWellKeyed(dims: Dimensions, cells: seq<DataCell>)
    ensures MapCells(dims, cells).Ok? ==> WellKeyed(dims, MapCells(dims, cells).value)
  {
    if cells != [] && MapCells(dims, cells).Ok? {
      var front, cell := cells[..|cells| - 1], cells[|cells| - 1];
      MapCellsWellKeyed(dims, front);
      var before, after := MapCells(dims, front).value, MapCells(dims, cells).value;
      assert AddCell(dims, before, cell) == Ok(after);
      forall col | col in after
        ensures ColumnKeyed(dims, col, after[col])
      {
        if col in before {
          assert ColumnKeyed(dims, col, before[col]);
        }
        if col == cell.position.col {
          assert cell.position.row in after[col].Keys;
        }
      }
    }
  }

  lemma AnyOrder(dims: Dimensions, column: Column, col: u16, cells: seq<DataCell>)
    requires ColumnKeyed(dims, col, column) && Enumerates(cells, column)
    ensures ReconstructColumn(dims.ExtendedRows(), cells)
      == ReconstructColumn(dims.ExtendedRows(), ValuesByRow(column, dims.ExtendedRows()))
  {
    hide ReconstructColumn, ValuesByRow, Enumerates;
    RowOrderEnumerates(column, dims.ExtendedRows());
    OrderIsIrrelevant(dims.ExtendedRows(), cells, ValuesByRow(column, dims.ExtendedRows()), column);
  }

  // ---------- The operations ----------

  /** One turn of the map over the columns in `reconstruct_available`. */
  method ReconstructColumnScalars(dims: Dimensions, columns: Columns, col: u16)
    returns (r: Result<seq<Option<Scalar>>, ReconstructionError>)
    requires WellKeyed(dims, columns)
    ensures r == ColumnScalars(dims, columns, col)
  {
    if col !in columns {
      return Ok(seq(dims.rows, _ => None));
    }
    if |columns[col]| < dims.rows {
      return Err(InvalidColumn(col));
    }
    assert ColumnKeyed(dims, col, columns[col]);
    hide ReconstructColumn, ValuesByRow, Enumerates;
    var cells := ValuesOf(columns[col]);
    AnyOrder(dims, columns[col], col, cells);
    hide ColumnKeyed, WellKeyed;
    var scalars :- ReconstructColumnOf(dims.ExtendedRows(), cells);
    r := Ok(seq(|scalars|, i requires 0 <= i < |scalars| => Some(scalars[i])));
  }

  method ReconstructAllColumns(dims: Dimensions, columns: Columns)
    returns (r: Result<seq<seq<Option<Scalar>>>, ReconstructionError>)
    requires WellKeyed(dims, columns)
    ensures r == AllColumns(dims, columns, dims.cols)
  {
    hide ColumnScalars, WellKeyed;
    var scalars: seq<seq<Option<Scalar>>> := [];
    for col := 0 to dims.cols
      invariant AllColumns(dims, columns, col) == Ok(scalars)
    {
      var next := ReconstructColumnScalars(dims, columns, col);
      if next.Err? {
        AllColumnsFailsEarly(dims, columns, col + 1, dims.cols);
        return Err(next.error);
      }
      scalars := scalars + [next.value];
    }
    r := Ok(scalars);
  }

  lemma {:induction false} AllColumnsFailsEarly(dims: Dimensions, columns: Columns, m: nat, n: nat)
    requires m <= n <= dims.cols && AllColumns(dims, columns, m).Err?
    ensures AllColumns(dims, columns, n) == AllColumns(dims, columns, m)
    decreases n
  {
    if m < n {
      AllColumnsFailsEarly(dims, columns, m, n - 1);
    }
  }

  /** The nested loop over `iter_data` (or `iter_extended_data_positions`), which visits cell k at (k / cols, k %
      cols). */
  method CollectRows(chunk: (nat, nat) -> Chunk, rows: nat, cols: nat) returns (result: seq<byte>)
    requires cols > 0
    ensures result == FlatChunks(RowMajor(chunk, cols, rows * cols))
  {
    hide FlatChunks;
    result := [];
    assert RowMajor(chunk, cols, 0) == [] && FlatChunks([]) == [] by { NoChunks(); }
    for row := 0 to rows
      invariant result == FlatChunks(RowMajor(chunk, cols, row * cols))
    {
      result := CollectRow(chunk, row, cols, result);
      assert (row + 1) * cols == row * cols + cols;
    }
  }

  lemma NoChunks()
    ensures FlatChunks([]) == []
  {}

  method CollectRow(chunk: (nat, nat) -> Chunk, row: nat, cols: nat, before: seq<byte>) returns (result: seq<byte>)
    requires cols > 0 && before == FlatChunks(RowMajor(chunk, cols, row * cols))
    ensures result == FlatChunks(RowMajor(chunk, cols, row * cols + cols))
  {
    hide FlatChunks;
    result := before;
    for col := 0 to cols
      invariant result == FlatChunks(RowMajor(chunk, cols, row * cols + col))
    {
      RowMajorStep(chunk, cols, row, col);
      FlatChunksConcat(RowMajor(chunk, cols, row * cols + col), [chunk(row, col)]);
      FlatChunksOfOne(chunk(row, col));
      result := result + chunk(row, col);
    }
  }

  lemma RowMajorStep(chunk: (nat, nat) -> Chunk, cols: nat, row: nat, col: nat)
    requires col < cols
    ensures RowMajor(chunk, cols, row * cols + col + 1) == RowMajor(chunk, cols, row * cols + col) + [chunk(row, col)]
  {
    var k := row * cols + col;
    QuotientOf(k, cols, row);
    assert k % cols == col by { assert k == k / cols * cols + k % cols; }
  }

  /** `reconstruct_available`. */
  method ReconstructAvailableData(dims: Dimensions, cells: seq<DataCell>)
    returns (r: Result<seq<byte>, ReconstructionError>)
    ensures r == ReconstructAvailable(dims, cells)
  {
    hide MapCells, AllColumns, FlatChunks, RowMajor, CellBytes;
    MapCellsWellKeyed(dims, cells);
    var columns :- MapCellsByColumn(dims, cells);
    var scalars :- ReconstructAllColumns(dims, columns);
    var result := CollectRows((row, col) => CellBytes(scalars, row, col), dims.rows, dims.cols);
    r := Ok(result);
  }

  /** `reconstruct_extrinsics`. */
  method ReconstructAllExtrinsics(lookup: DataLookup, dims: Dimensions, cells: seq<DataCell>)
    returns (r: Result<seq<Group>, ReconstructionError>)
    ensures r == ReconstructExtrinsics(lookup, dims, cells)
  {
    hide ReconstructAvailable, Unflatten;
    var data :- ReconstructAvailableData(dims, cells);
    var ranges := lookup.ProjectedRanges(32);
    if ranges.Err? { return Err(DataLookupError(ranges.error)); }
    var groups := UnflattenPaddedData(ranges.value, data);
    r := if groups.Err? then Err(DataDecodingError(groups.error)) else Ok(groups.value);
  }

  method FlattenItems(groups: seq<Group>) returns (items: seq<seq<byte>>)
    ensures items == AllItems(groups)
  {
    items := [];
    assert groups[0..] == groups && [] + AllItems(groups) == AllItems(groups);
    for i := 0 to |groups|
      invariant AllItems(groups) == items + AllItems(groups[i..])
    {
      assert groups[i..][1..] == groups[i + 1..];
      assert items + (groups[i].1 + AllItems(groups[i + 1..])) == items + groups[i].1 + AllItems(groups[i + 1..]);
      items := items + groups[i].1;
    }
    assert items + [] == items;
  }

  /** `reconstruct_app_extrinsics`. */
  method ReconstructExtrinsicsOfApp(lookup: DataLookup, dims: Dimensions, cells: seq<DataCell>, id: AppId)
    returns (r: Result<seq<seq<byte>>, ReconstructionError>)
    ensures r == ReconstructAppExtrinsics(lookup, dims, cells, id)
  {
    hide ReconstructAvailable, Unflatten, AllItems;
    var data :- ReconstructAvailableData(dims, cells);
    var range := lookup.ProjectedRangeOf(id, 32);
    if range == None { return Err(MissingId(id)); }
    var groups := UnflattenPaddedData([(id, range.value)], data);
    if groups.Err? { return Err(DataDecodingError(groups.error)); }
    var items := FlattenItems(groups.value);
    r := Ok(items);
  }

  /** The loop of `decode_app_extrinsics` that looks for a cell that was not given. */
  method FindMissing(columns: Columns, positions: seq<Position>) returns (missing: Option<Position>)
    ensures missing == FirstMissing(columns, positions)
  {
    assert positions[0..] == positions;
    for i := 0 to |positions|
      invariant FirstMissing(columns, positions) == FirstMissing(columns, positions[i..])
    {
      assert positions[i..][1..] == positions[i + 1..];
      if !HasCell(columns, positions[i]) {
        return Some(positions[i]);
      }
    }
    missing := None;
  }

  /** `decode_app_extrinsics`. */
  method DecodeExtrinsicsOfApp(lookup: DataLookup, dims: Dimensions, cells: seq<DataCell>, id: AppId)
    returns (r: Result<seq<seq<byte>>, ReconstructionError>)
    ensures r == DecodeAppExtrinsics(lookup, dims, cells, id)
  {
    hide MapCells, FirstMissing, FlatChunks, RowMajor, GivenBytes, Unflatten, AllItems;
    var positions := AppSpecificCells(lookup, dims, id);
    if positions == None || positions.value == [] { return Ok([]); }
    var columns :- MapCellsByColumn(dims, cells);
    var missing := FindMissing(columns, positions.value);
    if missing.Some? { return Err(MissingCell(missing.value)); }
    var data := CollectRows((row, col) => GivenBytes(columns, row, col), dims.rows, dims.cols);
    var range := lookup.ProjectedRangeOf(id, 32);
    var groups := UnflattenPaddedData(if range == None then [] else [(id, range.value)], data);
    if groups.Err? { return Err(DataDecodingError(groups.error)); }
    var items := FlattenItems(groups.value);
    r := Ok(items);
  }
}
