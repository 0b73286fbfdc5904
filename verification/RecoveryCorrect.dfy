/** From any half of the cells of a column its data cells come back, and from such columns the data of the block. */
module RecoveryCorrect {
  import opened Results
  import opened Bytes
  import opened Field
  import opened Poly
  import opened Domain
  import opened Powers2
  import opened Matrix
  import opened Sizing
  import opened Extend
  import opened PolyReconstruction
  import opened PolyReconstructionCorrect
  import opened Recovery
  import opened RecoveryRuns

  // ---------- One column ----------

  function Present(subset: seq<Option<Scalar>>, k: nat): set<int>
    requires k <= |subset|
  {
    set i | 0 <= i < k && subset[i].Some?
  }

  lemma PresentStep(subset: seq<Option<Scalar>>, k: nat)
    requires k < |subset|
    ensures |Present(subset, k + 1)| == |Present(subset, k)| + if subset[k].Some? then 1 else 0
  {
    var before := Present(subset, k);
    assert Present(subset, k + 1) == if subset[k].Some? then before + {k} else before;
  }

  lemma {:induction false} MissingCount(subset: seq<Option<Scalar>>, k: nat)
    requires k <= |subset|
    ensures |Missing(subset, k)| + |Present(subset, k)| == k
  {
    if k == 0 {
      assert Present(subset, k) == {};
    } else {
      hide Present;
      MissingCount(subset, k - 1);
      PresentStep(subset, k - 1);
    }
  }

  /** The cells of a column hold the extended column's scalars at their rows. */
  ghost predicate ColumnSamples(column: Column, col: u16, extended: seq<Scalar>) {
    forall r :: r in column ==> r < |extended| && column[r] == DataCell(Position(r, col), ScalarToBytes(extended[r]))
  }

  lemma SubsetOfSamples(column: Column, col: u16, extended: seq<Scalar>)
    requires |extended| < 0x1_0000_0000 && ColumnSamples(column, col, extended)
    ensures var subset := SubsetOf(ValuesByRow(column, |extended|), |extended|);
      && (forall i :: 0 <= i < |extended| && i !in column ==> subset[i] == None)
      && (forall i :: 0 <= i < |extended| && i in column ==> subset[i] == Some(extended[i]))
      && |Missing(subset, |extended|)| + |column| == |extended|
  {
    var n := |extended|;
    var subset := SubsetOf(ValuesByRow(column, n), n);
    hide ValuesByRow, FindRow, ScalarToBytes, Missing;
    forall i | 0 <= i < n
      ensures subset[i] == if i in column then Some(extended[i]) else None
    {
      SubsetEntry(column, col, extended, i);
    }
    hide SubsetOf;
    MissingCount(subset, n);
    var keys: set<int> := column.Keys;
    assert keys == Present(subset, n);
  }

  lemma SubsetEntry(column: Column, col: u16, extended: seq<Scalar>, i: u32)
    requires i < |extended| < 0x1_0000_0000 && ColumnSamples(column, col, extended)
    ensures FindRow(ValuesByRow(column, |extended|), i) == if i in column then Some(extended[i]) else None
  {
    hide ValuesByRow, FindRow, ScalarFromBytes, ScalarToBytes, Enumerates;
    RowOrderEnumerates(column, |extended|);
    FindRowInEnumeration(ValuesByRow(column, |extended|), column, i);
    ScalarFromTo(extended[i]);
  }

  /** What `reconstruct_column` checks before it computes. */
  ghost predicate ColumnAccepted(rowCount: u32, cells: seq<DataCell>) {
    rowCount % 2 == 0 && rowCount / 2 <= |cells| <= rowCount && InOneColumn(cells)
  }

  /** At least one cell, and no two in different columns. */
  ghost predicate InOneColumn(cells: seq<DataCell>) {
    cells != [] && forall i, k :: 0 <= i < |cells| && 0 <= k < |cells| ==>
      cells[i].position.col == cells[k].position.col
  }

  lemma OneColumnIsSame(cells: seq<DataCell>)
    ensures InOneColumn(cells) <==> SameColumn(cells)
  {
    if InOneColumn(cells) {
      forall c | c in cells
        ensures c.position.col == cells[0].position.col
      {
        var i :| 0 <= i < |cells| && cells[i] == c;
      }
    }
  }

  /** The first cell of a row decides, and a row without a cell has nothing. */
  lemma {:induction false} FindRowIsFirst(cells: seq<DataCell>, row: nat, i: nat)
    requires i <= |cells| && forall k :: 0 <= k < i ==> cells[k].position.row != row
    ensures i == |cells| ==> FindRow(cells, row) == None
    ensures i < |cells| && cells[i].position.row == row ==> FindRow(cells, row) == ScalarFromBytes(cells[i].data)
  {
    hide ScalarFromBytes;
    if i > 0 {
      FindRowIsFirst(cells[1..], row, i - 1);
    }
  }

  /** Some row of the column has a cell whose bytes are a scalar. */
  ghost predicate HasReadableCell(rowCount: u32, cells: seq<DataCell>) {
    exists i :: 0 <= i < rowCount && FindRow(cells, i).Some?
  }

  lemma ColumnUnfolds(rowCount: u32, cells: seq<DataCell>)
    requires ColumnAccepted(rowCount, cells)
    ensures NewDomain(rowCount).Some? && rowCount >= 2 && rowCount % 2 == 0
    ensures rowCount <= NewDomain(rowCount).value.size <= 0x1_0000_0000
    ensures var r := Reconstruct(NewDomain(rowCount).value, SubsetOf(cells, rowCount));
      && (ReconstructColumn(rowCount, cells).Ok? <==> r.Ok?)
      && (r.Ok? ==> ReconstructColumn(rowCount, cells) == Ok(r.value))
  {
    OneColumnIsSame(cells);
    hide Reconstruct, NewDomain, SubsetOf, SameColumn;
    DomainExists(rowCount);
    DomainFits(rowCount);
    assert |cells| > 0;
  }

  lemma ColumnChecks(rowCount: u32, cells: seq<DataCell>)
    ensures var r, h := ReconstructColumn(rowCount, cells), rowCount / 2;
      && (rowCount % 2 != 0 ==> r == Err(InvalidRowCount))
      && (rowCount % 2 == 0 && |cells| < h ==> r == Err(MinCells(h)))
      && (rowCount % 2 == 0 && |cells| > rowCount ==> r == Err(MaxCells(rowCount)))
      && (rowCount % 2 == 0 && h <= |cells| <= rowCount && !InOneColumn(cells) ==> r == Err(CellsFromDifferentCols))
      && (ColumnAccepted(rowCount, cells) ==> r.Ok? || r == Err(BadZeroPolynomial))
  {
    OneColumnIsSame(cells);
    if ColumnAccepted(rowCount, cells) {
      DomainExists(rowCount);
    }
    hide Reconstruct, NewDomain, SubsetOf, SameColumn, InOneColumn;
  }

  /** `reconstruct_column` answers if and only if its checks pass and, where the row count is a power of two, some row
      has a readable cell. */
  lemma ColumnAnswersExactly(rowCount: u32, cells: seq<DataCell>)
    requires PrimeModulus()
    ensures ReconstructColumn(rowCount, cells).Ok? <==>
      ColumnAccepted(rowCount, cells) && (IsPow2(rowCount) ==> HasReadableCell(rowCount, cells))
    ensures ColumnAccepted(rowCount, cells) && ReconstructColumn(rowCount, cells).Err? ==>
      ReconstructColumn(rowCount, cells) == Err(BadZeroPolynomial)
  {
    ColumnChecks(rowCount, cells);
    hide InOneColumn, ReconstructColumn;
    if ColumnAccepted(rowCount, cells) {
      ColumnUnfolds(rowCount, cells);
      var d, subset := NewDomain(rowCount).value, SubsetOf(cells, rowCount);
      hide Reconstruct, NewDomain, IsPow2, FindRow, ColumnAccepted;
      FailsExactlyOnNothing(d, subset);
      if HasReadableCell(rowCount, cells) {
        var i :| 0 <= i < rowCount && FindRow(cells, i).Some?;
        assert subset[i].Some?;
      }
      if i :| 0 <= i < rowCount && subset[i].Some? {
        assert FindRow(cells, i).Some?;
      }
    }
  }

  /** The source asks for a power of two in a comment but checks only evenness. With a power of two an answer has half
      of the rows; with any other even row count there always is an answer, and it has more cells than that. */
  lemma ColumnHeightExactly(rowCount: u32, cells: seq<DataCell>)
    requires PrimeModulus() && ColumnAccepted(rowCount, cells)
    ensures var r := ReconstructColumn(rowCount, cells);
      && (r.Ok? && |r.value| == rowCount / 2 <==> IsPow2(rowCount) && HasReadableCell(rowCount, cells))
      && (!IsPow2(rowCount) ==> r.Ok? && |r.value| == NextPow2(rowCount) / 2 > rowCount / 2)
  {
    hide *;
    ColumnAnswersExactly(rowCount, cells);
    ColumnUnfolds(rowCount, cells);
    HalfIsExact(rowCount);
    if ReconstructColumn(rowCount, cells).Ok? {
      ReconstructLength(rowCount, cells, NewDomain(rowCount).value);
    }
  }

  lemma HalfIsExact(n: nat)
    requires n >= 2 && n % 2 == 0
    ensures NextPow2(NextPow2(n) / 2) == NextPow2(n) / 2 >= n / 2
    ensures NextPow2(n) / 2 == n / 2 <==> IsPow2(n)
  {
    NextPow2IsLeast(n);
    var s := NextPow2(n);
    assert IsPow2(s / 2) && s == 2 * (s / 2);
    hide NextPow2;
    NextPow2OfPow2(s / 2);
    if IsPow2(n) {
      NextPow2OfPow2(n);
    }
  }

  lemma ReconstructLength(rowCount: u32, cells: seq<DataCell>, d: Domain)
    requires ReconstructColumn(rowCount, cells).Ok? && NewDomain(rowCount) == Some(d)
    ensures rowCount >= 2 && rowCount % 2 == 0 && d.size == NextPow2(rowCount)
    ensures |ReconstructColumn(rowCount, cells).value| == NextPow2(d.size / 2)
  {
    hide NextPow2, SubsetOf, Reconstruct, NewDomain;
    DomainFits(rowCount);
    NewDomainIsValid(rowCount);
    assert |cells| > 0;
    AnswerLength(d, SubsetOf(cells, rowCount));
  }

  /** Three cells of a column of six rows: the answer has four cells, not three. */
  lemma SixRowsGiveFourCells()
    requires PrimeModulus()
    ensures var cells := seq(3, i requires 0 <= i < 3 => DataCell(Position(i, 0), ZeroBytes(32)));
      ReconstructColumn(6, cells).Ok? && |ReconstructColumn(6, cells).value| == 4
  {
    var cells := seq(3, i requires 0 <= i < 3 => DataCell(Position(i, 0), ZeroBytes(32)));
    assert ColumnAccepted(6, cells);
    assert !IsPow2(3) && !IsPow2(6) && NextPow2(6) == 2 * NextPow2(3) && NextPow2(3) == 2 * NextPow2(2);
    hide ReconstructColumn, ColumnAccepted;
    ColumnHeightExactly(6, cells);
  }

  /** Half of the cells of a column of 2 n rows, whatever half it is, give back its n data cells if and only if n is a
      power of two. The samples are from the extension of the data where n is a power of two; there is no extension
      otherwise, and then they may be anything. */
  lemma ColumnRecovered(n: nat, data: seq<Scalar>, extended: seq<Scalar>, column: Column, col: u16)
    requires PrimeModulus() && 0 < n < 0x1_0000 && |data| == n && |extended| == 2 * n
    requires NewDomain(2 * n).Some? && NewDomain(n).Some?
    requires IsPow2(n) ==> extended == ExtendColumn(NewDomain(n).value, NewDomain(2 * n).value, data)
    requires ColumnSamples(column, col, extended) && |column| >= n
    ensures ReconstructColumn(2 * n, ValuesByRow(column, 2 * n)) == Ok(data) <==> IsPow2(n)
  {
    if IsPow2(n) {
      hide *;
      PowerOfTwoColumn(n, data, column, col);
    } else {
      TwicePow2(n);
      hide *;
      var cells := ValuesByRow(column, 2 * n);
      SubsetOfSamples(column, col, extended);
      SampledColumnShape(cells, column, col, extended);
      Accepts(n, cells);
      ColumnHeightExactly(2 * n, cells);
    }
  }

  lemma Accepts(n: nat, cells: seq<DataCell>)
    requires n < 0x1_0000 && n <= |cells| <= 2 * n && SameColumn(cells)
    ensures ColumnAccepted(2 * n, cells)
  {
    OneColumnIsSame(cells);
    hide SameColumn, InOneColumn;
  }

  lemma PowerOfTwoColumn(n: nat, data: seq<Scalar>, column: Column, col: u16)
    requires PrimeModulus() && IsPow2(n) && n < 0x1_0000 && |data| == n && NewDomain(2 * n).Some? && NewDomain(n).Some?
    requires ColumnSamples(column, col, ExtendColumn(NewDomain(n).value, NewDomain(2 * n).value, data))
    requires |column| >= n
    ensures ReconstructColumn(2 * n, ValuesByRow(column, 2 * n)) == Ok(data)
  {
    hide *;
    Extend2(n, data);
    var large := NewDomain(2 * n).value;
    var extended, p := ExtendColumn(NewDomain(n).value, large, data), Ifft(NewDomain(n).value, data);
    var cells := ValuesByRow(column, 2 * n);
    var subset := SubsetOf(cells, 2 * n);
    SubsetOfSamples(column, col, extended);
    SubsetSamples(subset, column, extended, p, large.gen);
    SampledColumnShape(cells, column, col, extended);
    ReconstructFromSubset(n, data, subset, p);
    UnfoldColumn(n, cells);
  }

  /** Extension by the factor two. */
  lemma Extend2(n: nat, data: seq<Scalar>)
    requires PrimeModulus() && IsPow2(n) && |data| == n && NewDomain(2 * n).Some?
    ensures n > 0 && NewDomain(n).Some? && IsPow2(2 * n) && NewDomain(2 * n).value.size == 2 * n
    ensures var small, large := NewDomain(n).value, NewDomain(2 * n).value;
      var e, p := ExtendColumn(small, large, data), Ifft(small, data);
      && |p| == n && |e| == 2 * n
      && (forall i :: 0 <= i < 2 * n ==> e[i] == Eval(p, Pow(large.gen, i)))
      && (forall i :: 0 <= i < n ==> e[2 * i] == data[i])
  {
    assert IsPow2(2) && n > 0;
    hide *;
    Pow2Doubles(n);
    assert n * 2 == 2 * n;
    ExtensionIsSystematic(n, 2, 2 * n, data);
    GeneratorOfExtension(n, 2, 2 * n);
  }

  lemma SampledColumnShape(cells: seq<DataCell>, column: Column, col: u16, extended: seq<Scalar>)
    requires ColumnSamples(column, col, extended) && 0 < |column| && |extended| < 0x1_0000_0000
    requires cells == ValuesByRow(column, |extended|)
    ensures SameColumn(cells) && |cells| == |column|
  {
    RowOrderEnumerates(column, |extended|);
    var r :| r in column.Keys;
    hide ValuesByRow;
    EnumerationInOneColumn(cells, column, r);
  }

  lemma ReconstructFromSubset(n: nat, data: seq<Scalar>, subset: seq<Option<Scalar>>, p: seq<Scalar>)
    requires PrimeModulus() && IsPow2(2 * n) && n > 0 && |data| == |p| == n && |subset| == 2 * n
    requires NewDomain(2 * n).Some?
    requires var large := NewDomain(2 * n).value;
      && SamplesOf(subset, p, large.gen)
      && (forall i :: 0 <= i < n ==> Eval(p, Pow(large.gen, 2 * i)) == data[i])
    requires |Missing(subset, 2 * n)| <= n
    ensures var large := NewDomain(2 * n).value;
      large.size == 2 * n <= 0x1_0000_0000 && Reconstruct(large, subset) == Ok(data)
  {
    hide *;
    var large := NewDomain(2 * n).value;
    ReconstructCorrect(large, subset, p);
    assert large.size / 2 == n;
    assert data == seq(n, i requires 0 <= i => Eval(p, Pow(large.gen, 2 * i)));
  }

  lemma SubsetSamples(subset: seq<Option<Scalar>>, column: Column, extended: seq<Scalar>, p: seq<Scalar>, w: Scalar)
    requires |subset| == |extended| < 0x1_0000_0000
    requires forall i :: 0 <= i < |extended| && i !in column ==> subset[i] == None
    requires forall i :: 0 <= i < |extended| && i in column ==> subset[i] == Some(extended[i])
    requires forall i :: 0 <= i < |extended| ==> extended[i] == Eval(p, Pow(w, i))
    ensures SamplesOf(subset, p, w)
  {
    hide Eval, Pow;
  }

  lemma UnfoldColumn(n: nat, cells: seq<DataCell>)
    requires 0 < n < 0x1_0000 && n <= |cells| <= 2 * n && SameColumn(cells) && NewDomain(2 * n).Some?
    requires var d := NewDomain(2 * n).value; d.size == 2 * n && Reconstruct(d, SubsetOf(cells, 2 * n)).Ok?
    ensures ReconstructColumn(2 * n, cells) == Ok(Reconstruct(NewDomain(2 * n).value, SubsetOf(cells, 2 * n)).value)
  {
    hide Reconstruct, NewDomain, SubsetOf, SameColumn;
  }

  // ---------- The sampled matrix ----------

  ghost predicate DistinctPositions(cells: seq<DataCell>) {
    forall i, j :: 0 <= i < j < |cells| ==> cells[i].position != cells[j].position
  }

  /** Distinct positions inside the extended matrix, each holding what the extended matrix holds there. */
  ghost predicate SamplesMatrix(cells: seq<DataCell>, matrix: seq<seq<Scalar>>, dims: Dimensions) {
    && |matrix| == dims.cols && (forall c :: 0 <= c < dims.cols ==> |matrix[c]| == 2 * dims.rows)
    && (forall cell :: cell in cells ==> SampledAt(cell, matrix, dims))
    && DistinctPositions(cells)
  }

  ghost predicate SampledAt(cell: DataCell, matrix: seq<seq<Scalar>>, dims: Dimensions)
    requires |matrix| == dims.cols && (forall c :: 0 <= c < dims.cols ==> |matrix[c]| == 2 * dims.rows)
  {
    && cell.position.row < 2 * dims.rows && cell.position.col < dims.cols
    && cell.data == ScalarToBytes(matrix[cell.position.col][cell.position.row])
  }

  /** How many of the cells lie in a column. */
  function CountInColumn(cells: seq<DataCell>, col: nat): nat {
    if cells == [] then 0 else
    CountInColumn(cells[..|cells| - 1], col) + if cells[|cells| - 1].position.col == col then 1 else 0
  }

  ghost predicate KeepsAll(cells: seq<DataCell>, columns: Columns) {
    forall cell :: cell in cells ==> HasCell(columns, cell.position)
  }

  ghost predicate HoldsOnly(cells: seq<DataCell>, columns: Columns) {
    forall col, r :: col in columns && r in columns[col] ==>
      columns[col][r] in cells && columns[col][r].position == Position(r, col)
  }

  ghost predicate CountsMatch(cells: seq<DataCell>, columns: Columns) {
    forall col: u16 :: CountInColumn(cells, col) == if col in columns then |columns[col]| else 0
  }

  /** Every cell is kept in its own column, and nothing else is there. */
  ghost predicate Mapped(dims: Dimensions, cells: seq<DataCell>, columns: Columns) {
    && MapCells(dims, cells) == Ok(columns)
    && KeepsAll(cells, columns) && HoldsOnly(cells, columns) && CountsMatch(cells, columns)
  }

  ghost predicate AllInside(dims: Dimensions, cells: seq<DataCell>) {
    forall cell :: cell in cells ==> cell.position.row < 2 * dims.rows && cell.position.col < dims.cols
  }

  /** Cells at distinct positions inside the matrix are all kept, each in its own column. */
  lemma {:induction false} MapCellsKeepsAll(dims: Dimensions, cells: seq<DataCell>) returns (columns: Columns)
    requires AllInside(dims, cells) && DistinctPositions(cells)
    ensures Mapped(dims, cells, columns)
  {
    columns := map[];
    if cells != [] {
      var front, cell := cells[..|cells| - 1], cells[|cells| - 1];
      assert cells == front + [cell];
      assert forall i :: 0 <= i < |front| ==> front[i] == cells[i];
      var before := MapCellsKeepsAll(dims, front);
      assert cell in cells;
      PositionIsFree(front, before, cell);
      hide KeepsAll, HoldsOnly, CountsMatch, AddCell, WithCell, HasCell, AllInside, DistinctPositions;
      AddFree(dims, before, cell);
      columns := WithCell(before, cell);
      WithCellKeeps(front, before, cell);
      WithCellCounts(front, before, cell);
      assert MapCells(dims, cells) == AddCell(dims, before, cell);
    }
  }

  /** `map_cells` accepts a list if and only if its cells are inside the matrix, at distinct positions. */
  lemma MapCellsSucceedsExactly(dims: Dimensions, cells: seq<DataCell>)
    ensures MapCells(dims, cells).Ok? <==> AllInside(dims, cells) && DistinctPositions(cells)
  {
    if AllInside(dims, cells) && DistinctPositions(cells) {
      var columns := MapCellsKeepsAll(dims, cells);
    } else if MapCells(dims, cells).Ok? {
      MappedCellsAreDistinct(dims, cells);
    }
  }

  lemma {:induction false} MappedCellsAreDistinct(dims: Dimensions, cells: seq<DataCell>)
    requires MapCells(dims, cells).Ok?
    ensures AllInside(dims, cells) && DistinctPositions(cells)
  {
    if cells != [] {
      var front, cell := cells[..|cells| - 1], cells[|cells| - 1];
      assert cells == front + [cell];
      assert MapCells(dims, front).Ok? && AddCell(dims, MapCells(dims, front).value, cell).Ok?;
      hide *;
      MappedCellsAreDistinct(dims, front);
      var before := MapCellsKeepsAll(dims, front);
      MappedKeeps(dims, front, before);
      AddedIsNew(dims, front, before, cell);
    }
  }

  /** A refused list is refused at the first cell that is outside the matrix or at the position of an earlier cell, and
      the error says which of the two it is. */
  lemma {:induction false} MapCellsRefusesFirst(dims: Dimensions, cells: seq<DataCell>) returns (i: nat)
    requires MapCells(dims, cells).Err?
    ensures i < |cells| && AllInside(dims, cells[..i]) && DistinctPositions(cells[..i])
    ensures var p := cells[i].position;
      && (!(p.row < 2 * dims.rows && p.col < dims.cols) || exists k :: 0 <= k < i && cells[k].position == p)
      && MapCells(dims, cells)
        == Err(if p.row < 2 * dims.rows && p.col < dims.cols then DuplicateCellFound else InvalidCell(p))
  {
    var front, cell := cells[..|cells| - 1], cells[|cells| - 1];
    if MapCells(dims, front).Err? {
      i := MapCellsRefusesFirst(dims, front);
      assert front[..i] == cells[..i];
    } else {
      i := |cells| - 1;
      MappedCellsAreDistinct(dims, front);
      var before := MapCellsKeepsAll(dims, front);
      MappedKeeps(dims, front, before);
      assert MapCells(dims, cells) == AddCell(dims, before, cell);
      hide *;
      AddRefused(dims, before, cell);
      if HasCell(before, cell.position) {
        HeldPosition(front, before, cell.position);
      }
    }
  }

  lemma HeldPosition(cells: seq<DataCell>, columns: Columns, p: Position)
    requires HoldsOnly(cells, columns) && HasCell(columns, p)
    ensures exists k :: 0 <= k < |cells| && cells[k].position == p
  {
    assert columns[p.col][p.row] in cells;
  }

  lemma MappedKeeps(dims: Dimensions, cells: seq<DataCell>, columns: Columns)
    requires Mapped(dims, cells, columns)
    ensures MapCells(dims, cells) == Ok(columns) && KeepsAll(cells, columns) && HoldsOnly(cells, columns)
  {}

  lemma AddedIsNew(dims: Dimensions, front: seq<DataCell>, before: Columns, cell: DataCell)
    requires AllInside(dims, front) && DistinctPositions(front) && KeepsAll(front, before)
    requires AddCell(dims, before, cell).Ok?
    ensures AllInside(dims, front + [cell]) && DistinctPositions(front + [cell])
  {
    forall i | 0 <= i < |front|
      ensures front[i].position != cell.position
    {
      assert HasCell(before, front[i].position);
    }
  }

  function WithCell(columns: Columns, cell: DataCell): Columns {
    var p := cell.position;
    var column: Column := if p.col in columns then columns[p.col] else map[];
    columns[p.col := column[p.row := cell]]
  }

  lemma AddFree(dims: Dimensions, before: Columns, cell: DataCell)
    requires cell.position.row < 2 * dims.rows && cell.position.col < dims.cols && !HasCell(before, cell.position)
    ensures AddCell(dims, before, cell) == Ok(WithCell(before, cell))
  {}

  lemma AddRefused(dims: Dimensions, before: Columns, cell: DataCell)
    requires AddCell(dims, before, cell).Err?
    ensures var p := cell.position;
      && (p.row < 2 * dims.rows && p.col < dims.cols ==> HasCell(before, p))
      && AddCell(dims, before, cell)
        == Err(if p.row < 2 * dims.rows && p.col < dims.cols then DuplicateCellFound else InvalidCell(p))
  {}

  lemma PositionIsFree(front: seq<DataCell>, before: Columns, cell: DataCell)
    requires HoldsOnly(front, before) && forall c :: c in front ==> c.position != cell.position
    ensures !HasCell(before, cell.position)
  {}

  lemma WithCellKeeps(front: seq<DataCell>, before: Columns, cell: DataCell)
    requires KeepsAll(front, before) && HoldsOnly(front, before) && !HasCell(before, cell.position)
    ensures KeepsAll(front + [cell], WithCell(before, cell))
    ensures HoldsOnly(front + [cell], WithCell(before, cell))
  {
    var p, after := cell.position, WithCell(before, cell);
    forall c | c in front + [cell]
      ensures HasCell(after, c.position)
    {
      assert c in front ==> HasCell(before, c.position);
    }
    forall col, r | col in after && r in after[col]
      ensures after[col][r] in front + [cell] && after[col][r].position == Position(r, col)
    {
      if col == p.col && r == p.row {
        assert after[col][r] == cell;
      } else {
        assert col in before && r in before[col] && after[col][r] == before[col][r];
      }
    }
  }

  lemma WithCellCounts(front: seq<DataCell>, before: Columns, cell: DataCell)
    requires CountsMatch(front, before) && !HasCell(before, cell.position)
    ensures CountsMatch(front + [cell], WithCell(before, cell))
  {
    assert (front + [cell])[..|front|] == front;
  }
}
