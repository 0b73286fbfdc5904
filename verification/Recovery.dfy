/** Rebuilding block data and extrinsics from sampled cells (kate/recovery/src/com.rs). */
module Recovery {
  import opened Results
  import opened Bytes
  import opened Field
  import opened Domain
  import opened Powers2
  import opened Division
  import opened DataLookup
  import opened Matrix
  import opened Grouping
  import opened PolyReconstruction
  import opened Unflattening

  datatype DataCell = DataCell(position: Position, data: Chunk)

  datatype ReconstructionError =
    | MissingCell(position: Position)
    | InvalidCell(position: Position)
    | MaxCells(limit: nat)
    | MinCells(limit: nat)
    | DuplicateCellFound
    | InvalidColumn(col: nat)
    | DataDecodingError(error: UnflattenError)
    | InvalidRowCount
    | MissingId(id: AppId)
    | DataLookupError(lookupError: LookupError)
    | CellsFromDifferentCols
    | InvalidEvaluationDomain
    | BadZeroPolynomial

  type Column = map<u32, DataCell>
  type Columns = map<u16, Column>

  // ---------- Grouping cells by column ----------

  function AddCell(dims: Dimensions, columns: Columns, cell: DataCell): Result<Columns, ReconstructionError> {
    var p := cell.position;
    if !dims.ExtendedContains(p) then Err(InvalidCell(p)) else
    var column: Column := if p.col in columns then columns[p.col] else map[];
    if p.row in column then Err(DuplicateCellFound) else Ok(columns[p.col := column[p.row := cell]])
  }

  function MapCells(dims: Dimensions, cells: seq<DataCell>): Result<Columns, ReconstructionError> {
    if cells == [] then Ok(map[]) else
    var columns :- MapCells(dims, cells[..|cells| - 1]);
    AddCell(dims, columns, cells[|cells| - 1])
  }

  /** Once a prefix of the cells is refused, the whole list is refused for the same reason. */
  lemma {:induction false} MapCellsFailsEarly(dims: Dimensions, cells: seq<DataCell>, n: nat)
    requires n <= |cells| && MapCells(dims, cells[..n]).Err?
    ensures MapCells(dims, cells) == MapCells(dims, cells[..n])
    decreases |cells|
  {
    if n < |cells| {
      assert cells[..|cells| - 1][..n] == cells[..n];
      MapCellsFailsEarly(dims, cells[..|cells| - 1], n);
    } else {
      assert cells[..n] == cells;
    }
  }

  /** `map_cells`: fills the nested maps, and stops at a cell outside the matrix or a second cell at one position. */
  method MapCellsByColumn(dims: Dimensions, cells: seq<DataCell>) returns (r: Result<Columns, ReconstructionError>)
    ensures r == MapCells(dims, cells)
  {
    var result: Columns := map[];
    for i := 0 to |cells|
      invariant MapCells(dims, cells[..i]) == Ok(result)
    {
      var cell := cells[i];
      var p := cell.position;
      assert cells[..i + 1][..i] == cells[..i];
      assert MapCells(dims, cells[..i + 1]) == AddCell(dims, result, cell);
      if !dims.ExtendedContains(p) {
        MapCellsFailsEarly(dims, cells, i + 1);
        return Err(InvalidCell(p));
      }
      var column: Column := if p.col in result then result[p.col] else map[];
      if p.row in column {
        MapCellsFailsEarly(dims, cells, i + 1);
        return Err(DuplicateCellFound);
      }
      result := result[p.col := column[p.row := cell]];
    }
    assert cells[..|cells|] == cells;
    r := Ok(result);
  }

  // ---------- One column ----------

  /** `find_row_by_index`: the first cell of the row, as a scalar; none also when its bytes are not canonical. */
  function FindRow(cells: seq<DataCell>, row: nat): Option<Scalar> {
    if cells == [] then None
    else if cells[0].position.row == row then ScalarFromBytes(cells[0].data)
    else FindRow(cells[1..], row)
  }

  function SubsetOf(cells: seq<DataCell>, n: nat): (s: seq<Option<Scalar>>)
    ensures |s| == n
  {
    seq(n, i requires 0 <= i => FindRow(cells, i))
  }

  /** `check_cells`. */
  predicate SameColumn(cells: seq<DataCell>) {
    cells != [] && forall c :: c in cells ==> c.position.col == cells[0].position.col
  }

  lemma DomainFits(rowCount: u32)
    requires NewDomain(rowCount).Some?
    ensures rowCount <= NewDomain(rowCount).value.size <= 0x1_0000_0000
  {
    NextPow2IsLeast(rowCount);
    Log2IsInverse(NextPow2(rowCount));
    Pow2Monotone(Log2(NextPow2(rowCount)), 32);
    Pow2Of32();
  }

  function ReconstructColumn(rowCount: u32, cells: seq<DataCell>): Result<seq<Scalar>, ReconstructionError> {
    if rowCount % 2 != 0 then Err(InvalidRowCount)
    else if |cells| < rowCount / 2 then Err(MinCells(rowCount / 2))
    else if |cells| > rowCount then Err(MaxCells(rowCount))
    else if !SameColumn(cells) then Err(CellsFromDifferentCols)
    else
      match NewDomain(rowCount)
      case None => Err(InvalidEvaluationDomain)
      case Some(d) =>
        DomainFits(rowCount);
        match Reconstruct(d, SubsetOf(cells, rowCount))
        case Err(_) => Err(BadZeroPolynomial)
        case Ok(column) => Ok(column)
  }

  /** `reconstruct_column`. */
  method ReconstructColumnOf(rowCount: u32, cells: seq<DataCell>) returns (r: Result<seq<Scalar>, ReconstructionError>)
    ensures r == ReconstructColumn(rowCount, cells)
  {
    if rowCount % 2 != 0 { return Err(InvalidRowCount); }
    if |cells| < rowCount / 2 { return Err(MinCells(rowCount / 2)); }
    if |cells| > rowCount { return Err(MaxCells(rowCount)); }
    if !SameColumn(cells) { return Err(CellsFromDifferentCols); }
    var domain := NewDomain(rowCount);
    if domain == None { return Err(InvalidEvaluationDomain); }
    var subset: seq<Option<Scalar>> := [];
    for i := 0 to rowCount
      invariant |subset| == i && forall k :: 0 <= k < i ==> subset[k] == FindRow(cells, k)
    {
      subset := subset + [FindRow(cells, i)];
    }
    assert subset == SubsetOf(cells, rowCount);
    DomainFits(rowCount);
    NewDomainIsValid(rowCount);
    hide Reconstruct, NewDomain, FindRow, SubsetOf;
    var column := ReconstructPoly(domain.value, subset);
    r := if column.Err? then Err(BadZeroPolynomial) else Ok(column.value);
  }

  // ---------- The values of a hash map, in no particular order ----------

  /** The list holds exactly the values of the map, once each. */
  ghost predicate Enumerates(cells: seq<DataCell>, column: Column) {
    && |cells| == |column|
    && (forall c :: c in cells ==> c.position.row in column && column[c.position.row] == c)
    && (forall r :: r in column ==> column[r] in cells)
  }

  /** `values().cloned().collect()`: any order is possible. */
  method ValuesOf(column: Column) returns (cells: seq<DataCell>)
    requires forall r :: r in column ==> column[r].position.row == r
    ensures Enumerates(cells, column)
  {
    cells := [];
    var rest := column.Keys;
    while rest != {}
      invariant rest <= column.Keys && |cells| + |rest| == |column|
      invariant forall c :: c in cells ==> c.position.row in column && column[c.position.row] == c
      invariant forall r :: r in column && r !in rest ==> column[r] in cells
      decreases |rest|
    {
      var r :| r in rest;
      rest := rest - {r};
      cells := cells + [column[r]];
    }
  }

  /** The values with rows below n, by row: one of the possible orders. */
  function ValuesByRow(column: Column, n: nat): seq<DataCell> {
    if n == 0 then [] else ValuesByRow(column, n - 1) + if n - 1 in column then [column[n - 1]] else []
  }

  // ---------- The whole matrix ----------

  function ColumnScalars(dims: Dimensions, columns: Columns, col: u16)
    : Result<seq<Option<Scalar>>, ReconstructionError>
  {
    if col !in columns then Ok(seq(dims.rows, _ => None))
    else if |columns[col]| < dims.rows then Err(InvalidColumn(col))
    else
      var scalars :- ReconstructColumn(dims.ExtendedRows(), ValuesByRow(columns[col], dims.ExtendedRows()));
      Ok(seq(|scalars|, i requires 0 <= i < |scalars| => Some(scalars[i])))
  }

  function AllColumns(dims: Dimensions, columns: Columns, n: nat)
    : (r: Result<seq<seq<Option<Scalar>>>, ReconstructionError>)
    requires n <= dims.cols
    ensures r.Ok? ==> |r.value| == n
  {
    if n == 0 then Ok([]) else
    var front :- AllColumns(dims, columns, n - 1);
    var last :- ColumnScalars(dims, columns, n - 1);
    Ok(front + [last])
  }

  /** The bytes of one data cell: zeros when its column was not there. */
  function CellBytes(scalars: seq<seq<Option<Scalar>>>, row: nat, col: nat): Chunk {
    if col < |scalars| && row < |scalars[col]| && scalars[col][row].Some?
    then ScalarToBytes(scalars[col][row].value) else ZeroBytes(32)
  }

  /** The chunks of the first n data cells, row by row. */
  function RowMajor(chunk: (nat, nat) -> Chunk, cols: nat, n: nat): (c: seq<Chunk>)
    requires cols > 0
    ensures |c| == n
  {
    seq(n, k requires 0 <= k => QuotientBounds(k, cols); chunk(k / cols, k % cols))
  }

  function ReconstructAvailable(dims: Dimensions, cells: seq<DataCell>): Result<seq<byte>, ReconstructionError> {
    var columns :- MapCells(dims, cells);
    var scalars :- AllColumns(dims, columns, dims.cols);
    Ok(FlatChunks(RowMajor((r, c) => CellBytes(scalars, r, c), dims.cols, dims.rows * dims.cols)))
  }

  function ReconstructExtrinsics(lookup: DataLookup, dims: Dimensions, cells: seq<DataCell>)
    : Result<seq<Group>, ReconstructionError>
  {
    var data :- ReconstructAvailable(dims, cells);
    match lookup.ProjectedRanges(32)
    case Err(e) => Err(DataLookupError(e))
    case Ok(ranges) =>
      match Unflatten(ranges, data)
      case Err(e) => Err(DataDecodingError(e))
      case Ok(groups) => Ok(groups)
  }

  /** The extrinsics of all groups in one list (`flat_map`). */
  function AllItems(groups: seq<Group>): seq<seq<byte>> {
    if groups == [] then [] else groups[0].1 + AllItems(groups[1..])
  }

  function ReconstructAppExtrinsics(lookup: DataLookup, dims: Dimensions, cells: seq<DataCell>, id: AppId)
    : Result<seq<seq<byte>>, ReconstructionError>
  {
    var data :- ReconstructAvailable(dims, cells);
    match lookup.ProjectedRangeOf(id, 32)
    case None => Err(MissingId(id))
    case Some(range) =>
      match Unflatten([(id, range)], data)
      case Err(e) => Err(DataDecodingError(e))
      case Ok(groups) => Ok(AllItems(groups))
  }

  // ---------- Decoding without erasure coding ----------

  /** `app_specific_cells`. */
  function AppSpecificCells(lookup: DataLookup, dims: Dimensions, id: AppId): Option<seq<Position>> {
    var range :- lookup.RangeOf(id);
    dims.ExtendedDataPositions(range)
  }

  /** `app_specific_rows`. */
  function AppSpecificRows(lookup: DataLookup, dims: Dimensions, id: AppId): seq<nat> {
    match lookup.RangeOf(id)
    case None => []
    case Some(range) =>
      match dims.ExtendedDataRows(range)
      case None => []
      case Some(rows) => rows
  }

  predicate HasCell(columns: Columns, p: Position) {
    p.col in columns && p.row in columns[p.col]
  }

  function FirstMissing(columns: Columns, positions: seq<Position>): Option<Position> {
    if positions == [] then None
    else if !HasCell(columns, positions[0]) then Some(positions[0])
    else FirstMissing(columns, positions[1..])
  }

  /** The bytes of the data cell at (row, col), found in the extended matrix at twice the row. */
  function GivenBytes(columns: Columns, row: nat, col: nat): Chunk {
    if col < 0x1_0000 && 2 * row <= U32_MAX && HasCell(columns, Position(2 * row, col))
    then columns[col][2 * row].data else ZeroBytes(32)
  }

  function DecodeAppExtrinsics(lookup: DataLookup, dims: Dimensions, cells: seq<DataCell>, id: AppId)
    : Result<seq<seq<byte>>, ReconstructionError>
  {
    var positions := AppSpecificCells(lookup, dims, id);
    if positions == None || positions.value == [] then Ok([]) else
    var columns :- MapCells(dims, cells);
    match FirstMissing(columns, positions.value)
    case Some(p) => Err(MissingCell(p))
    case None =>
      var data := FlatChunks(RowMajor((r, c) => GivenBytes(columns, r, c), dims.cols, dims.rows * dims.cols));
      var ranges := match lookup.ProjectedRangeOf(id, 32) case None => [] case Some(range) => [(id, range)];
      match Unflatten(ranges, data)
      case Err(e) => Err(DataDecodingError(e))
      case Ok(groups) => Ok(AllItems(groups))
  }
}
