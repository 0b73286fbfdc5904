/** A block of padded cells, its extended matrix, and the data that comes back from sampled cells of it. */
module BlockRecovery {
  import opened Results
  import opened Bytes
  import opened Field
  import opened Domain
  import opened Powers2
  import opened Division
  import opened Matrix
  import opened Sizing
  import opened Flattening
  import opened Unflattening
  import opened Extend
  import opened Recovery
  import opened RecoveryRuns
  import opened RecoveryCorrect

  // ---------- From cells to scalars and back ----------

  /** The scalar that a padded data chunk denotes. */
  function ScalarOf(c: DataChunk): Scalar {
    PaddedChunkIsScalar(PadToChunk(c));
    ScalarFromBytes(PadToChunk(c)).value
  }

  function ScalarsOf(cells: seq<DataChunk>): (s: seq<Scalar>)
    ensures |s| == |cells|
  {
    seq(|cells|, k requires 0 <= k < |cells| => ScalarOf(cells[k]))
  }

  lemma ScalarOfCell(c: DataChunk)
    ensures ScalarFromBytes(PadToChunk(c)) == Some(ScalarOf(c)) && ScalarToBytes(ScalarOf(c)) == PadToChunk(c)
  {
    PaddedChunkIsScalar(PadToChunk(c));
    ScalarToFrom(PadToChunk(c));
  }

  /** Padded chunks always convert, which is why 31 bytes go into each cell. */
  lemma {:induction false} FlatBytesAreScalars(cells: seq<DataChunk>)
    ensures ToScalars(ChunksExact(FlatBytes(cells))) == Some(ScalarsOf(cells))
  {
    hide ScalarFromBytes, ScalarOf, FlatBytes;
    if cells == [] {
      assert FlatBytes(cells) == [];
    } else {
      var s := FlatBytes(cells);
      FlatBytesCons(cells);
      assert s[..32] == PadToChunk(cells[0]) && s[32..] == FlatBytes(cells[1..]);
      assert ChunksExact(s) == [PadToChunk(cells[0])] + ChunksExact(FlatBytes(cells[1..]));
      ScalarOfCell(cells[0]);
      FlatBytesAreScalars(cells[1..]);
      assert ScalarsOf(cells) == [ScalarOf(cells[0])] + ScalarsOf(cells[1..]);
    }
  }

  lemma FlatChunksOfCells(chunks: seq<Chunk>, cells: seq<DataChunk>)
    requires |chunks| == |cells| && forall k :: 0 <= k < |cells| ==> chunks[k] == PadToChunk(cells[k])
    ensures FlatChunks(chunks) == FlatBytes(cells)
  {
    hide FlatChunks;
    assert chunks == Widened(cells);
  }

  /** Where the chunks are the padded cells, the bytes are those of the flat block. */
  lemma DataAgrees(chunks: seq<Chunk>, cells: seq<DataChunk>, s: nat, e: nat)
    requires |chunks| == |cells| && s <= e <= |cells|
    requires forall k :: s <= k < e ==> chunks[k] == PadToChunk(cells[k])
    ensures FlatChunks(chunks)[32 * s..32 * e] == FlatBytes(cells)[32 * s..32 * e]
  {
    hide PadToChunk;
    FlatChunksSlice(chunks, s, e);
    FlatBytesSlice(cells, s, e);
    FlatChunksOfCells(chunks[s..e], cells[s..e]);
  }

  // ---------- The extended matrix of a block ----------

  /** A block of padded cells, its dimensions, and its column-extended matrix. */
  ghost predicate ExtendedBlock(dims: Dimensions, cells: seq<DataChunk>, matrix: seq<seq<Scalar>>) {
    && IsPow2(dims.rows) && |cells| == dims.rows * dims.cols
    && NewDomain(dims.rows).Some? && NewDomain(2 * dims.rows).Some?
    && matrix == ExtendFrom(NewDomain(dims.rows).value, NewDomain(2 * dims.rows).value, ScalarsOf(cells),
                            dims.rows, dims.cols, dims.cols)
  }

  lemma SmallDomainsExist(n: nat)
    requires IsPow2(n) && n < 0x2_0000
    ensures NewDomain(n).Some? && NewDomain(n).value.size == n
  {
    NextPow2OfPow2(n);
    NextPow2IsLeast(n);
    Log2IsInverse(n);
    Pow2Of32();
    if Log2(n) > 32 {
      Pow2Monotone(33, Log2(n));
    }
  }

  /** Extending a block whose cells are padded chunks succeeds exactly when its extended dimensions fit 16 bits. */
  lemma ExtendSucceedsExactly(d: BlockDimensions, cells: seq<DataChunk>)
    requires IsPow2(d.rows) && d.cols > 0 && |cells| == d.rows * d.cols
    ensures ExtendMatrix(d, FlatBytes(cells)).Ok? <==> 2 * d.rows < 0x1_0000 && d.cols < 0x1_0000
    ensures ExtendMatrix(d, FlatBytes(cells)).Ok? ==>
      ExtendedBlock(Dimensions(d.rows, d.cols), cells, ExtendMatrix(d, FlatBytes(cells)).value)
  {
    FlatBytesAreScalars(cells);
    if 2 * d.rows < 0x1_0000 && d.cols < 0x1_0000 {
      SmallDomainsExist(d.rows);
      Pow2Doubles(d.rows);
      SmallDomainsExist(2 * d.rows);
    }
    hide NewDomain, ToScalars, ChunksExact, FlatBytes, ScalarsOf, IsPow2;
  }

  lemma MatrixShape(dims: Dimensions, cells: seq<DataChunk>, matrix: seq<seq<Scalar>>)
    requires ExtendedBlock(dims, cells, matrix)
    ensures |matrix| == dims.cols && forall c :: 0 <= c < dims.cols ==> |matrix[c]| == dims.ExtendedRows()
  {
    Pow2Doubles(dims.rows);
    NextPow2OfPow2(2 * dims.rows);
    hide ScalarsOf, ExtendColumn, IsPow2, NextPow2, Log2;
  }

  // ---------- The columns that are there come back ----------

  ghost predicate ColumnHalf(sampled: seq<DataCell>, dims: Dimensions, c: u16) {
    CountInColumn(sampled, c) == 0 || CountInColumn(sampled, c) >= dims.rows
  }

  /** The first n columns are each absent or have at least half of their cells. */
  ghost predicate HalfBelow(sampled: seq<DataCell>, dims: Dimensions, n: nat) {
    forall c: u16 :: c < n ==> ColumnHalf(sampled, dims, c)
  }

  ghost predicate AbsentOrHalf(sampled: seq<DataCell>, dims: Dimensions) {
    HalfBelow(sampled, dims, dims.cols)
  }

  /** The first column that is there, but not by half. */
  ghost predicate FirstDeficient(sampled: seq<DataCell>, dims: Dimensions, c: u16) {
    c < dims.cols && !ColumnHalf(sampled, dims, c) && HalfBelow(sampled, dims, c)
  }

  /** What a column yields: its data cells' scalars, or nothing when it was not sampled. */
  function Expected(present: bool, dims: Dimensions, scalars: seq<Scalar>, c: nat): (s: seq<Option<Scalar>>)
    requires c < dims.cols && dims.rows * dims.cols <= |scalars|
    ensures |s| == dims.rows
  {
    var col := ColumnOf(scalars, dims.rows, dims.cols, c);
    seq(dims.rows, r requires 0 <= r < dims.rows => if present then Some(col[r]) else None)
  }

  lemma SampledColumn(dims: Dimensions, matrix: seq<seq<Scalar>>, sampled: seq<DataCell>, columns: Columns, c: u16)
    requires SamplesMatrix(sampled, matrix, dims) && Mapped(dims, sampled, columns) && c in columns && c < dims.cols
    ensures ColumnSamples(columns[c], c, matrix[c])
  {
    hide MapCells, CountsMatch, KeepsAll, ScalarToBytes;
    forall r | r in columns[c]
      ensures r < |matrix[c]| && columns[c][r] == DataCell(Position(r, c), ScalarToBytes(matrix[c][r]))
    {
      var cell := columns[c][r];
      assert cell in sampled && cell.position == Position(r, c);
      assert SampledAt(cell, matrix, dims);
    }
  }

  lemma PresentColumn(dims: Dimensions, columns: Columns, c: u16, data: seq<Scalar>)
    requires c in columns && |columns[c]| >= dims.rows == |data|
    requires ReconstructColumn(2 * dims.rows, ValuesByRow(columns[c], 2 * dims.rows)) == Ok(data)
    ensures ColumnScalars(dims, columns, c) == Ok(seq(|data|, r requires 0 <= r < |data| => Some(data[r])))
  {
    hide ReconstructColumn, ValuesByRow;
    assert dims.ExtendedRows() == 2 * dims.rows;
  }

  lemma ColumnComesBack(dims: Dimensions, cells: seq<DataChunk>, matrix: seq<seq<Scalar>>, sampled: seq<DataCell>,
                        columns: Columns, c: u16)
    requires PrimeModulus() && ExtendedBlock(dims, cells, matrix) && c < dims.cols
    requires SamplesMatrix(sampled, matrix, dims) && ColumnHalf(sampled, dims, c) && Mapped(dims, sampled, columns)
    ensures ColumnScalars(dims, columns, c) == Ok(Expected(c in columns, dims, ScalarsOf(cells), c))
  {
    hide *;
    var v := ScalarsOf(cells);
    BlockFacts(dims, cells, matrix);
    if c in columns {
      var data := ColumnOf(v, dims.rows, dims.cols, c);
      PresentColumnIsHalf(dims, sampled, columns, c);
      SampledColumn(dims, matrix, sampled, columns, c);
      MatrixColumn(dims, cells, matrix, c);
      PowerOfTwoColumn(dims.rows, data, columns[c], c);
      PresentColumn(dims, columns, c, data);
      ExpectedPresent(dims, v, c);
    } else {
      AbsentColumn(dims, columns, v, c);
    }
  }

  lemma BlockFacts(dims: Dimensions, cells: seq<DataChunk>, matrix: seq<seq<Scalar>>)
    requires ExtendedBlock(dims, cells, matrix)
    ensures IsPow2(dims.rows) && |ScalarsOf(cells)| == |cells| == dims.rows * dims.cols
    ensures NewDomain(dims.rows).Some? && NewDomain(2 * dims.rows).Some? && |matrix| == dims.cols
  {
    hide NewDomain, IsPow2;
  }

  lemma ExpectedPresent(dims: Dimensions, scalars: seq<Scalar>, c: nat)
    requires c < dims.cols && dims.rows * dims.cols <= |scalars|
    ensures var data := ColumnOf(scalars, dims.rows, dims.cols, c);
      Expected(true, dims, scalars, c) == seq(|data|, r requires 0 <= r < |data| => Some(data[r]))
  {
    hide ColumnOf;
  }

  lemma AbsentColumn(dims: Dimensions, columns: Columns, scalars: seq<Scalar>, c: u16)
    requires c < dims.cols && dims.rows * dims.cols <= |scalars| && c !in columns
    ensures ColumnScalars(dims, columns, c) == Ok(Expected(false, dims, scalars, c))
  {
    hide ColumnOf;
    var none, expected := ColumnScalars(dims, columns, c).value, Expected(false, dims, scalars, c);
    assert |none| == |expected| && forall r :: 0 <= r < dims.rows ==> none[r] == expected[r];
    assert none == expected;
  }

  lemma PresentColumnIsHalf(dims: Dimensions, sampled: seq<DataCell>, columns: Columns, c: u16)
    requires ColumnHalf(sampled, dims, c) && Mapped(dims, sampled, columns) && c in columns && c < dims.cols
    ensures |columns[c]| >= dims.rows
  {
    MapCellsWellKeyed(dims, sampled);
    assert ColumnKeyed(dims, c, columns[c]);
    assert |columns[c].Keys| > 0;
    assert CountInColumn(sampled, c) == |columns[c]|;
  }

  lemma MatrixColumn(dims: Dimensions, cells: seq<DataChunk>, matrix: seq<seq<Scalar>>, c: nat)
    requires ExtendedBlock(dims, cells, matrix) && c < dims.cols
    ensures matrix[c] == ExtendColumn(NewDomain(dims.rows).value, NewDomain(2 * dims.rows).value,
                                      ColumnOf(ScalarsOf(cells), dims.rows, dims.cols, c))
  {
    hide NewDomain, ScalarsOf, ExtendColumn, ColumnOf;
  }

  /** The first n columns are as expected. */
  ghost predicate AllExpected(dims: Dimensions, columns: Columns, scalars: seq<Scalar>,
                              got: seq<seq<Option<Scalar>>>, n: nat) {
    && |got| == n <= dims.cols && dims.rows * dims.cols <= |scalars|
    && forall c: u16 :: c < n ==> got[c] == Expected(c in columns, dims, scalars, c)
  }

  lemma {:induction false} AllColumnsComeBack(dims: Dimensions, cells: seq<DataChunk>, matrix: seq<seq<Scalar>>,
                                              sampled: seq<DataCell>, columns: Columns, n: nat)
    requires PrimeModulus() && ExtendedBlock(dims, cells, matrix) && n <= dims.cols
    requires SamplesMatrix(sampled, matrix, dims) && HalfBelow(sampled, dims, n) && Mapped(dims, sampled, columns)
    ensures AllColumns(dims, columns, n).Ok?
    ensures AllExpected(dims, columns, ScalarsOf(cells), AllColumns(dims, columns, n).value, n)
  {
    hide *;
    BlockFacts(dims, cells, matrix);
    if n == 0 {
      NoColumns(dims, columns, ScalarsOf(cells));
    } else {
      HalfBelowStep(sampled, dims, n - 1);
      AllColumnsComeBack(dims, cells, matrix, sampled, columns, n - 1);
      ColumnComesBack(dims, cells, matrix, sampled, columns, n - 1);
      AllColumnsStep(dims, columns, n);
      AllExpectedStep(dims, columns, ScalarsOf(cells), AllColumns(dims, columns, n - 1).value, n - 1);
    }
  }

  lemma HalfBelowStep(sampled: seq<DataCell>, dims: Dimensions, c: u16)
    requires HalfBelow(sampled, dims, c + 1)
    ensures HalfBelow(sampled, dims, c) && ColumnHalf(sampled, dims, c)
  {
    hide ColumnHalf;
  }

  lemma NoColumns(dims: Dimensions, columns: Columns, scalars: seq<Scalar>)
    requires dims.rows * dims.cols <= |scalars|
    ensures AllColumns(dims, columns, 0) == Ok([]) && AllExpected(dims, columns, scalars, [], 0)
  {}

  lemma AllExpectedStep(dims: Dimensions, columns: Columns, scalars: seq<Scalar>, got: seq<seq<Option<Scalar>>>, c: u16)
    requires AllExpected(dims, columns, scalars, got, c) && c < dims.cols && dims.rows * dims.cols <= |scalars|
    ensures AllExpected(dims, columns, scalars, got + [Expected(c in columns, dims, scalars, c)], c + 1)
  {
    hide Expected;
  }

  lemma AllColumnsStep(dims: Dimensions, columns: Columns, n: nat)
    requires 0 < n <= dims.cols && AllColumns(dims, columns, n - 1).Ok? && ColumnScalars(dims, columns, n - 1).Ok?
    ensures AllColumns(dims, columns, n)
      == Ok(AllColumns(dims, columns, n - 1).value + [ColumnScalars(dims, columns, n - 1).value])
  {
    hide ColumnScalars;
  }

  lemma CellComesBack(dims: Dimensions, cells: seq<DataChunk>, scalars: seq<seq<Option<Scalar>>>, columns: Columns,
                      r: nat, c: u16, k: nat)
    requires |cells| == dims.rows * dims.cols && k < |cells| && r < dims.rows && c < dims.cols && k == r * dims.cols + c
    requires AllExpected(dims, columns, ScalarsOf(cells), scalars, dims.cols)
    ensures CellBytes(scalars, r, c) == if c in columns then PadToChunk(cells[k]) else ZeroBytes(32)
  {
    hide ScalarToBytes, ScalarOf, PadToChunk;
    ScalarOfCell(cells[k]);
    assert scalars[c] == Expected(c in columns, dims, ScalarsOf(cells), c);
    assert ColumnOf(ScalarsOf(cells), dims.rows, dims.cols, c)[r] == ScalarsOf(cells)[k];
    hide ColumnOf;
  }

  lemma RowMajorIndex(k: nat, rows: nat, cols: nat)
    requires cols > 0 && k < rows * cols
    ensures 0 <= k / cols < rows && 0 <= k % cols < cols && k / cols * cols + k % cols == k
  {
    QuotientBelow(k, cols, rows);
  }

  lemma ColumnEntry(v: seq<Scalar>, rows: nat, cols: nat, k: nat)
    requires cols > 0 && k < rows * cols <= |v| && 0 <= k / cols < rows && 0 <= k % cols < cols
    ensures ColumnOf(v, rows, cols, k % cols)[k / cols] == v[k]
  {
    RowMajorIndex(k, rows, cols);
  }

  /** What `reconstruct_available` collects from the columns. */
  function AvailableChunks(dims: Dimensions, scalars: seq<seq<Option<Scalar>>>): seq<Chunk> {
    RowMajor((r, c) => CellBytes(scalars, r, c), dims.cols, dims.rows * dims.cols)
  }

  lemma AvailableUnfolds(dims: Dimensions, sampled: seq<DataCell>, columns: Columns)
    requires MapCells(dims, sampled) == Ok(columns) && AllColumns(dims, columns, dims.cols).Ok?
    ensures ReconstructAvailable(dims, sampled)
      == Ok(FlatChunks(AvailableChunks(dims, AllColumns(dims, columns, dims.cols).value)))
  {
    hide MapCells, AllColumns, FlatChunks, CellBytes;
    var scalars := AllColumns(dims, columns, dims.cols).value;
    assert RowMajor((r, c) => CellBytes(scalars, r, c), dims.cols, dims.rows * dims.cols)
      == AvailableChunks(dims, scalars);
  }

  lemma AvailableChunkAt(dims: Dimensions, scalars: seq<seq<Option<Scalar>>>, k: nat)
    ensures |AvailableChunks(dims, scalars)| == dims.rows * dims.cols
    ensures k < dims.rows * dims.cols ==>
      AvailableChunks(dims, scalars)[k] == CellBytes(scalars, k / dims.cols, k % dims.cols)
  {
    hide CellBytes;
  }

  lemma SampledInMatrix(dims: Dimensions, matrix: seq<seq<Scalar>>, sampled: seq<DataCell>)
    requires SamplesMatrix(sampled, matrix, dims)
    ensures AllInside(dims, sampled) && DistinctPositions(sampled)
  {
    forall cell | cell in sampled
      ensures dims.ExtendedContains(cell.position)
    {
      assert SampledAt(cell, matrix, dims);
    }
  }

  lemma SampledExactly(dims: Dimensions, sampled: seq<DataCell>, columns: Columns, c: u16)
    requires Mapped(dims, sampled, columns)
    ensures CountInColumn(sampled, c) > 0 <==> c in columns
  {
    hide MapCells, CountInColumn;
    MapCellsWellKeyed(dims, sampled);
    assert CountInColumn(sampled, c) == if c in columns then |columns[c]| else 0;
    if c in columns {
      assert ColumnKeyed(dims, c, columns[c]);
      assert |columns[c].Keys| > 0;
    }
  }

  /** The reconstructed data, cell by cell: the block's cell where its column was sampled, zeros elsewhere. */
  lemma AvailableData(dims: Dimensions, cells: seq<DataChunk>, matrix: seq<seq<Scalar>>, sampled: seq<DataCell>)
    returns (chunks: seq<Chunk>)
    requires PrimeModulus() && ExtendedBlock(dims, cells, matrix)
    requires SamplesMatrix(sampled, matrix, dims) && AbsentOrHalf(sampled, dims)
    ensures ReconstructAvailable(dims, sampled) == Ok(FlatChunks(chunks)) && |chunks| == |cells|
    ensures forall k :: 0 <= k < |cells| ==>
      chunks[k] == if CountInColumn(sampled, k % dims.cols) > 0 then PadToChunk(cells[k]) else ZeroBytes(32)
  {
    assert HalfBelow(sampled, dims, dims.cols);
    hide *;
    SampledInMatrix(dims, matrix, sampled);
    var columns := MapCellsKeepsAll(dims, sampled);
    BlockFacts(dims, cells, matrix);
    AllColumnsComeBack(dims, cells, matrix, sampled, columns, dims.cols);
    var scalars := AllColumns(dims, columns, dims.cols).value;
    chunks := AvailableChunks(dims, scalars);
    MappedUnfolds(dims, sampled, columns);
    AvailableUnfolds(dims, sampled, columns);
    AvailableChunkAt(dims, scalars, 0);
    forall k | 0 <= k < |cells|
      ensures chunks[k] == if CountInColumn(sampled, k % dims.cols) > 0 then PadToChunk(cells[k]) else ZeroBytes(32)
    {
      RowMajorIndex(k, dims.rows, dims.cols);
      AvailableChunkAt(dims, scalars, k);
      CellComesBack(dims, cells, scalars, columns, k / dims.cols, k % dims.cols, k);
      SampledExactly(dims, sampled, columns, k % dims.cols);
    }
  }

  lemma MappedUnfolds(dims: Dimensions, sampled: seq<DataCell>, columns: Columns)
    requires Mapped(dims, sampled, columns)
    ensures MapCells(dims, sampled) == Ok(columns)
  {}

  lemma {:induction false} FindDeficient(sampled: seq<DataCell>, dims: Dimensions, n: nat) returns (c: u16)
    requires n <= dims.cols && !HalfBelow(sampled, dims, n)
    ensures FirstDeficient(sampled, dims, c)
  {
    hide ColumnHalf;
    if n > 0 && !HalfBelow(sampled, dims, n - 1) {
      c := FindDeficient(sampled, dims, n - 1);
    } else {
      c := n - 1;
    }
  }

  lemma DeficientFails(dims: Dimensions, cells: seq<DataChunk>, matrix: seq<seq<Scalar>>, sampled: seq<DataCell>,
                       c: u16)
    requires PrimeModulus() && ExtendedBlock(dims, cells, matrix) && SamplesMatrix(sampled, matrix, dims)
    requires FirstDeficient(sampled, dims, c)
    ensures ReconstructAvailable(dims, sampled) == Err(InvalidColumn(c))
  {
    hide *;
    DeficientUnfolds(sampled, dims, c);
    SampledInMatrix(dims, matrix, sampled);
    var columns := MapCellsKeepsAll(dims, sampled);
    MappedUnfolds(dims, sampled, columns);
    AllColumnsComeBack(dims, cells, matrix, sampled, columns, c);
    DeficientColumn(dims, sampled, columns, c);
    AllColumnsFailsEarly(dims, columns, c + 1, dims.cols);
    AvailableFails(dims, sampled, columns, c);
  }

  lemma DeficientUnfolds(sampled: seq<DataCell>, dims: Dimensions, c: u16)
    requires FirstDeficient(sampled, dims, c)
    ensures c < dims.cols && !ColumnHalf(sampled, dims, c) && HalfBelow(sampled, dims, c)
  {}

  lemma DeficientColumn(dims: Dimensions, sampled: seq<DataCell>, columns: Columns, c: u16)
    requires Mapped(dims, sampled, columns) && c < dims.cols && !ColumnHalf(sampled, dims, c)
    requires AllColumns(dims, columns, c).Ok?
    ensures AllColumns(dims, columns, c + 1) == Err(InvalidColumn(c))
  {
    hide MapCells, CountInColumn, ReconstructColumn, ValuesByRow;
    assert CountInColumn(sampled, c) == if c in columns then |columns[c]| else 0;
    assert ColumnScalars(dims, columns, c) == Err(InvalidColumn(c));
    hide ColumnScalars;
  }

  lemma AvailableFails(dims: Dimensions, sampled: seq<DataCell>, columns: Columns, c: u16)
    requires MapCells(dims, sampled) == Ok(columns) && AllColumns(dims, columns, dims.cols) == Err(InvalidColumn(c))
    ensures ReconstructAvailable(dims, sampled) == Err(InvalidColumn(c))
  {
    hide MapCells, AllColumns, FlatChunks, CellBytes;
  }

  /** Reconstruction succeeds on sampled cells if and only if every column is absent or at least half there; otherwise
      it reports the first column that is not. */
  lemma AvailableExactly(dims: Dimensions, cells: seq<DataChunk>, matrix: seq<seq<Scalar>>, sampled: seq<DataCell>)
    requires PrimeModulus() && ExtendedBlock(dims, cells, matrix) && SamplesMatrix(sampled, matrix, dims)
    ensures ReconstructAvailable(dims, sampled).Ok? <==> AbsentOrHalf(sampled, dims)
    ensures forall c: u16 :: FirstDeficient(sampled, dims, c) ==>
      ReconstructAvailable(dims, sampled) == Err(InvalidColumn(c))
  {
    hide ReconstructAvailable, ExtendedBlock, SamplesMatrix, PrimeModulus, ColumnHalf, FirstDeficient;
    if AbsentOrHalf(sampled, dims) {
      var chunks := AvailableData(dims, cells, matrix, sampled);
    } else {
      var c := FindDeficient(sampled, dims, dims.cols);
      DeficientFails(dims, cells, matrix, sampled, c);
    }
    forall c: u16 | FirstDeficient(sampled, dims, c)
      ensures ReconstructAvailable(dims, sampled) == Err(InvalidColumn(c))
    {
      DeficientFails(dims, cells, matrix, sampled, c);
    }
  }
}
