/** Decoding one application from its own data cells, without any erasure-coded cell, agrees with what it submitted. */
module AppDecoding {
  import opened Results
  import opened Bytes
  import opened Field
  import opened DataLookup
  import opened Matrix
  import opened Grouping
  import opened Flattening
  import opened Unflattening
  import opened Extend
  import opened Recovery
  import opened RecoveryCorrect
  import opened BlockRecovery
  import opened EndToEnd

  /** Some given cell sits at the extended position of data cell k. */
  ghost predicate GivenAt(given: seq<DataCell>, dims: Dimensions, k: u32)
    requires k < dims.Size()
  {
    exists cell :: cell in given && cell.position == dims.ExtendedDataPosition(k)
  }

  /** Every even row of the extended matrix is a data row: it holds the padded cell. */
  lemma DataCellInMatrix(dims: Dimensions, cells: seq<DataChunk>, matrix: seq<seq<Scalar>>, k: u32)
    requires PrimeModulus() && ExtendedBlock(dims, cells, matrix) && k < dims.Size()
    ensures var p := dims.ExtendedDataPosition(k);
      && p.col < |matrix| && p.row < |matrix[p.col]|
      && k < |cells| && ScalarToBytes(matrix[p.col][p.row]) == PadToChunk(cells[k])
  {
    var p := dims.ExtendedDataPosition(k);
    var r, c := k / dims.cols, k % dims.cols;
    var v := ScalarsOf(cells);
    BlockFacts(dims, cells, matrix);
    RowMajorIndex(k, dims.rows, dims.cols);
    MatrixShape(dims, cells, matrix);
    MatrixColumn(dims, cells, matrix, c);
    var data := ColumnOf(v, dims.rows, dims.cols, c);
    ColumnEntry(v, dims.rows, dims.cols, k);
    ScalarOfCell(cells[k]);
    assert v[k] == ScalarOf(cells[k]);
    assert p == Position(2 * r, c);
    hide *;
    Extend2(dims.rows, data);
  }

  ghost predicate HoldsMatrixCell(columns: Columns, matrix: seq<seq<Scalar>>, p: Position) {
    && HasCell(columns, p) && p.col < |matrix| && p.row < |matrix[p.col]|
    && columns[p.col][p.row].data == ScalarToBytes(matrix[p.col][p.row])
  }

  lemma HasGivenCell(given: seq<DataCell>, matrix: seq<seq<Scalar>>, dims: Dimensions, columns: Columns, k: u32)
    requires SamplesMatrix(given, matrix, dims) && Mapped(dims, given, columns) && k < dims.Size()
    ensures HasCell(columns, dims.ExtendedDataPosition(k)) <==> GivenAt(given, dims, k)
    ensures HasCell(columns, dims.ExtendedDataPosition(k)) ==>
      HoldsMatrixCell(columns, matrix, dims.ExtendedDataPosition(k))
  {
    var p := dims.ExtendedDataPosition(k);
    hide MapCells, CountsMatch, ScalarToBytes, Dimensions.ExtendedDataPosition;
    if HasCell(columns, p) {
      var cell := columns[p.col][p.row];
      assert cell in given && cell.position == p;
      assert SampledAt(cell, matrix, dims);
    }
  }

  lemma GivenBytesAt(dims: Dimensions, columns: Columns, k: u32)
    requires k < dims.Size() && HasCell(columns, dims.ExtendedDataPosition(k))
    ensures var p := dims.ExtendedDataPosition(k);
      GivenBytes(columns, k / dims.cols, k % dims.cols) == columns[p.col][p.row].data
  {
    RowMajorIndex(k, dims.rows, dims.cols);
  }

  /** Where an application's cell was given, the decoder puts the block's cell. */
  lemma GivenChunk(dims: Dimensions, cells: seq<DataChunk>, matrix: seq<seq<Scalar>>, given: seq<DataCell>,
                   columns: Columns, k: u32)
    requires PrimeModulus() && ExtendedBlock(dims, cells, matrix)
    requires SamplesMatrix(given, matrix, dims) && Mapped(dims, given, columns)
    requires k < dims.Size() && GivenAt(given, dims, k)
    ensures k < |cells| && GivenBytes(columns, k / dims.cols, k % dims.cols) == PadToChunk(cells[k])
  {
    hide *;
    HasGivenCell(given, matrix, dims, columns, k);
    DataCellInMatrix(dims, cells, matrix, k);
    GivenBytesAt(dims, columns, k);
    HoldsUnfolds(columns, matrix, dims.ExtendedDataPosition(k));
  }

  lemma HoldsUnfolds(columns: Columns, matrix: seq<seq<Scalar>>, p: Position)
    requires HoldsMatrixCell(columns, matrix, p)
    ensures p.col in columns && p.row in columns[p.col] && p.col < |matrix| && p.row < |matrix[p.col]|
    ensures columns[p.col][p.row].data == ScalarToBytes(matrix[p.col][p.row])
  {
    hide ScalarToBytes;
  }

  lemma {:induction false} FirstMissingIs(columns: Columns, positions: seq<Position>, j: nat)
    requires j <= |positions| && forall i :: 0 <= i < j ==> HasCell(columns, positions[i])
    requires j < |positions| ==> !HasCell(columns, positions[j])
    ensures FirstMissing(columns, positions) == if j < |positions| then Some(positions[j]) else None
  {
    if j > 0 {
      FirstMissingIs(columns, positions[1..], j - 1);
    }
  }

  /** The positions that are looked up: one for each cell of the application's range. */
  lemma PositionsOfApp(l: DataLookup, dims: Dimensions, id: AppId, range: Range)
    requires l.RangeOf(id) == Some(range) && range.start < range.end <= dims.Size()
    ensures var s := AppSpecificCells(l, dims, id);
      && s.Some? && |s.value| == range.end - range.start > 0
      && forall i :: 0 <= i < |s.value| ==> s.value[i] == dims.ExtendedDataPosition(range.start + i)
  {
    hide FindRange, Dimensions.ExtendedDataPosition;
  }

  /** The decoder in terms of its parts, for an application that is in the index. */
  lemma DecodeUnfolds(l: DataLookup, dims: Dimensions, given: seq<DataCell>, id: AppId, columns: Columns,
                      chunks: seq<Chunk>)
    requires AppSpecificCells(l, dims, id).Some? && AppSpecificCells(l, dims, id).value != []
    requires MapCells(dims, given) == Ok(columns)
    requires chunks == RowMajor((r, c) => GivenBytes(columns, r, c), dims.cols, dims.rows * dims.cols)
    ensures var missing := FirstMissing(columns, AppSpecificCells(l, dims, id).value);
      && (missing.Some? ==> DecodeAppExtrinsics(l, dims, given, id) == Err(MissingCell(missing.value)))
      && (missing == None && l.ProjectedRangeOf(id, 32).Some?
          && Unflatten([(id, l.ProjectedRangeOf(id, 32).value)], FlatChunks(chunks)).Ok? ==>
            DecodeAppExtrinsics(l, dims, given, id)
              == Ok(AllItems(Unflatten([(id, l.ProjectedRangeOf(id, 32).value)], FlatChunks(chunks)).value)))
  {
    hide AppSpecificCells, MapCells, GivenBytes, FlatChunks, FirstMissing, Unflatten, AllItems;
    assert chunks == RowMajor((r, c) => GivenBytes(columns, r, c), dims.cols, dims.rows * dims.cols);
  }

  lemma DecodeWithoutRange(l: DataLookup, dims: Dimensions, given: seq<DataCell>, id: AppId, columns: Columns)
    requires AppSpecificCells(l, dims, id).Some? && AppSpecificCells(l, dims, id).value != []
    requires MapCells(dims, given) == Ok(columns) && FirstMissing(columns, AppSpecificCells(l, dims, id).value) == None
    requires l.ProjectedRangeOf(id, 32) == None
    ensures DecodeAppExtrinsics(l, dims, given, id) == Ok([])
  {
    var chunks := CollectedChunks(dims, columns);
    NothingUnflattens(FlatChunks(chunks), |chunks|);
    hide AppSpecificCells, MapCells, GivenBytes, FlatChunks, FirstMissing, Unflatten, AllItems;
    assert chunks == RowMajor((r, c) => GivenBytes(columns, r, c), dims.cols, dims.rows * dims.cols);
  }

  lemma NothingUnflattens(data: seq<byte>, n: nat)
    requires |data| == 32 * n
    ensures Unflatten([], data) == Ok([]) && AllItems([]) == []
  {
    WholeChunks([], data, n);
  }

  lemma AbsentApp(l: DataLookup, dims: Dimensions, given: seq<DataCell>, id: AppId)
    requires l.RangeOf(id) == None
    ensures DecodeAppExtrinsics(l, dims, given, id) == Ok([])
  {
    hide MapCells, GivenBytes, FlatChunks, FirstMissing, Unflatten, AllItems;
  }

  lemma MapSamples(given: seq<DataCell>, matrix: seq<seq<Scalar>>, dims: Dimensions) returns (columns: Columns)
    requires SamplesMatrix(given, matrix, dims)
    ensures Mapped(dims, given, columns) && MapCells(dims, given) == Ok(columns)
  {
    forall cell | cell in given
      ensures dims.ExtendedContains(cell.position)
    {
      assert SampledAt(cell, matrix, dims);
    }
    columns := MapCellsKeepsAll(dims, given);
  }

  ghost predicate AllGiven(given: seq<DataCell>, dims: Dimensions, range: Range) {
    forall k: u32 :: range.start <= k < range.end ==> k < dims.Size() && GivenAt(given, dims, k)
  }

  /** k is the first cell of the range that was not given. */
  ghost predicate FirstNotGiven(given: seq<DataCell>, dims: Dimensions, range: Range, k: u32) {
    && range.start <= k < range.end && k < dims.Size() && !GivenAt(given, dims, k)
    && AllGiven(given, dims, Range(range.start, k))
  }

  /** The chunks that the decoder collects. */
  ghost predicate FromGiven(chunks: seq<Chunk>, columns: Columns, dims: Dimensions) {
    && |chunks| == dims.rows * dims.cols
    && forall k: nat :: k < |chunks| ==> chunks[k] == GivenBytes(columns, k / dims.cols, k % dims.cols)
  }

  lemma ChunksOfRange(dims: Dimensions, cells: seq<DataChunk>, matrix: seq<seq<Scalar>>, given: seq<DataCell>,
                      columns: Columns, chunks: seq<Chunk>, range: Range)
    requires PrimeModulus() && ExtendedBlock(dims, cells, matrix)
    requires SamplesMatrix(given, matrix, dims) && Mapped(dims, given, columns) && FromGiven(chunks, columns, dims)
    requires |chunks| == |cells| && range.start <= range.end <= |cells| && AllGiven(given, dims, range)
    ensures FlatChunks(chunks)[32 * range.start..32 * range.end] == FlatBytes(cells)[32 * range.start..32 * range.end]
  {
    forall k: nat | range.start <= k < range.end
      ensures chunks[k] == PadToChunk(cells[k])
    {
      hide SamplesMatrix, Mapped, ExtendedBlock, GivenAt, GivenBytes, PadToChunk, FlatChunks, FlatBytes;
      GivenChunk(dims, cells, matrix, given, columns, k);
    }
    hide *;
    DataAgrees(chunks, cells, range.start, range.end);
  }

  lemma AllPositionsGiven(l: DataLookup, dims: Dimensions, matrix: seq<seq<Scalar>>, given: seq<DataCell>,
                          columns: Columns,
                          id: AppId, range: Range, j: nat)
    requires SamplesMatrix(given, matrix, dims) && Mapped(dims, given, columns)
    requires l.RangeOf(id) == Some(range) && range.start < range.end <= dims.Size() && j <= range.end - range.start
    requires AllGiven(given, dims, Range(range.start, range.start + j))
    requires j < range.end - range.start ==> !GivenAt(given, dims, range.start + j)
    ensures AppSpecificCells(l, dims, id).Some?
    ensures FirstMissing(columns, AppSpecificCells(l, dims, id).value)
      == if j < range.end - range.start then Some(dims.ExtendedDataPosition(range.start + j)) else None
  {
    PositionsOfApp(l, dims, id, range);
    var s := AppSpecificCells(l, dims, id).value;
    hide SamplesMatrix, Mapped, AppSpecificCells, FirstMissing, GivenAt, HasCell, FindRange,
      Dimensions.ExtendedDataPosition;
    forall i | 0 <= i < |s|
      ensures HasCell(columns, s[i]) <==> GivenAt(given, dims, range.start + i)
    {
      HasGivenCell(given, matrix, dims, columns, range.start + i);
    }
    FirstMissingIs(columns, s, j);
  }

  lemma CollectedChunks(dims: Dimensions, columns: Columns) returns (chunks: seq<Chunk>)
    ensures chunks == RowMajor((r, c) => GivenBytes(columns, r, c), dims.cols, dims.rows * dims.cols)
    ensures FromGiven(chunks, columns, dims)
  {
    hide GivenBytes;
    chunks := RowMajor((r, c) => GivenBytes(columns, r, c), dims.cols, dims.rows * dims.cols);
  }

  lemma DecodeGivenApp(groups: seq<Group>, parts: seq<seq<DataChunk>>, cells: seq<DataChunk>, matrix: seq<seq<Scalar>>,
                       l: DataLookup, dims: Dimensions, given: seq<DataCell>, id: AppId, xs: seq<AppExtrinsic>,
                       range: Range)
    requires PrimeModulus() && SamplesMatrix(given, matrix, dims) && IsGrouping(groups, xs)
    requires IndexOf(l, groups, parts) && JoinCells(parts) <= cells && ExtendedBlock(dims, cells, matrix)
    requires l.RangeOf(id) == Some(range) && range.start < range.end <= |cells| == dims.Size()
    requires AllGiven(given, dims, range)
    ensures DecodeAppExtrinsics(l, dims, given, id) == Ok(if 32 * range.end <= U32_MAX then DataOf(xs, id) else [])
  {
    assert U32_MAX == 0xffff_ffff;
    hide *;
    var columns := MapSamples(given, matrix, dims);
    var chunks := CollectedChunks(dims, columns);
    SizeIsProduct(dims);
    PositionsOfApp(l, dims, id, range);
    AllPositionsGiven(l, dims, matrix, given, columns, id, range, range.end - range.start);
    DecodeUnfolds(l, dims, given, id, columns, chunks);
    if 32 * range.end <= U32_MAX {
      GivenLength(chunks, columns, dims);
      ChunksOfRange(dims, cells, matrix, given, columns, chunks, range);
      AppUnflattens(groups, parts, cells, l, id, xs, FlatChunks(chunks));
    } else {
      NoProjection(l, id, range);
      DecodeWithoutRange(l, dims, given, id, columns);
    }
  }

  lemma NoProjection(l: DataLookup, id: AppId, range: Range)
    requires l.RangeOf(id) == Some(range) && 32 * range.end > U32_MAX
    ensures l.ProjectedRangeOf(id, 32) == None
  {
    hide FindRange;
  }

  lemma SizeIsProduct(dims: Dimensions)
    ensures dims.Size() == dims.rows * dims.cols
  {}

  lemma GivenLength(chunks: seq<Chunk>, columns: Columns, dims: Dimensions)
    requires FromGiven(chunks, columns, dims)
    ensures |chunks| == dims.Size()
  {
    hide GivenBytes;
  }

  lemma DecodeIncompleteApp(matrix: seq<seq<Scalar>>, l: DataLookup, dims: Dimensions, given: seq<DataCell>, id: AppId,
                            range: Range, k: u32)
    requires SamplesMatrix(given, matrix, dims)
    requires l.RangeOf(id) == Some(range) && range.start < range.end <= dims.Size() && k < dims.Size()
    requires FirstNotGiven(given, dims, range, k)
    ensures DecodeAppExtrinsics(l, dims, given, id) == Err(MissingCell(dims.ExtendedDataPosition(k)))
  {
    hide *;
    FirstUnfolds(given, dims, range, k);
    var j := k - range.start;
    assert range.start + j == k;
    var columns := MapSamples(given, matrix, dims);
    var chunks := CollectedChunks(dims, columns);
    PositionsOfApp(l, dims, id, range);
    AllPositionsGiven(l, dims, matrix, given, columns, id, range, j);
    DecodeUnfolds(l, dims, given, id, columns, chunks);
  }

  lemma FirstUnfolds(given: seq<DataCell>, dims: Dimensions, range: Range, k: u32)
    requires FirstNotGiven(given, dims, range, k)
    ensures range.start <= k < range.end && k < dims.Size() && !GivenAt(given, dims, k)
    ensures AllGiven(given, dims, Range(range.start, range.start + (k - range.start)))
  {
    hide GivenAt;
  }

  /** What `decode_app_extrinsics` answers on any cells of the matrix. An application that submitted nothing decodes to
      nothing. If every data cell of its range was given, the result is exactly what it submitted, or nothing when its
      byte offsets do not fit 32 bits. Otherwise the first cell of the range that was not given is reported. */
  ghost predicate DecodesRight(l: DataLookup, dims: Dimensions, given: seq<DataCell>, id: AppId,
                               xs: seq<AppExtrinsic>) {
    var r := DecodeAppExtrinsics(l, dims, given, id);
    && (l.RangeOf(id) == None ==> r == Ok(DataOf(xs, id)) == Ok([]))
    && (l.RangeOf(id).Some? && AllGiven(given, dims, l.RangeOf(id).value) ==>
          r == Ok(if 32 * l.RangeOf(id).value.end <= U32_MAX then DataOf(xs, id) else []))
    && (l.RangeOf(id).Some? ==>
          forall k: u32 :: k < dims.Size() && FirstNotGiven(given, dims, l.RangeOf(id).value, k) ==>
            r == Err(MissingCell(dims.ExtendedDataPosition(k))))
  }

  lemma DecodeOfBlock(groups: seq<Group>, parts: seq<seq<DataChunk>>, cells: seq<DataChunk>, matrix: seq<seq<Scalar>>,
                      l: DataLookup, dims: Dimensions, given: seq<DataCell>, id: AppId, xs: seq<AppExtrinsic>)
    requires PrimeModulus() && Consists(groups, parts, cells, matrix, l, dims) && IsGrouping(groups, xs)
    requires SamplesMatrix(given, matrix, dims)
    ensures DecodesRight(l, dims, given, id, xs)
  {
    hide PrimeModulus, Consists, IsGrouping, SamplesMatrix, DecodeAppExtrinsics, DataOf, AllGiven, FirstNotGiven,
      FindRange,
      Dimensions.ExtendedDataPosition, ExtendedBlock, IndexOf, JoinCells;
    ConsistsUnfolds(groups, parts, cells, matrix, l, dims);
    BlockFacts(dims, cells, matrix);
    SizeIsProduct(dims);
    EntryExists(groups, parts, l, id, xs);
    if l.RangeOf(id) == None {
      AbsentApp(l, dims, given, id);
    } else {
      var i := EntryOf(groups, parts, cells, l, id, xs);
      var range := l.index[i].1;
      if AllGiven(given, dims, range) {
        DecodeGivenApp(groups, parts, cells, matrix, l, dims, given, id, xs, range);
      }
      forall k: u32 | k < dims.Size() && FirstNotGiven(given, dims, range, k)
        ensures DecodeAppExtrinsics(l, dims, given, id) == Err(MissingCell(dims.ExtendedDataPosition(k)))
      {
        DecodeIncompleteApp(matrix, l, dims, given, id, range, k);
      }
    }
  }

  /** `decode_app_extrinsics` answers rightly on any cells of a built block, whose byte offsets always fit. */
  lemma DecodeAppCorrect(maxRows: u32, maxCols: u32, xs: seq<AppExtrinsic>, filler: nat -> DataChunk,
                         matrix: seq<seq<Scalar>>, l: DataLookup, dims: Dimensions, given: seq<DataCell>, id: AppId)
    requires PrimeModulus()
    requires Built(maxRows, maxCols, xs, filler, matrix, l, dims) && SamplesMatrix(given, matrix, dims)
    ensures DecodesRight(l, dims, given, id, xs)
    ensures l.RangeOf(id).Some? ==> 32 * l.RangeOf(id).value.end <= U32_MAX
  {
    hide *;
    var parts, cells := BuiltConsists(maxRows, maxCols, xs, filler, matrix, l, dims);
    ConsistsUnfolds(Grouped(xs), parts, cells, matrix, l, dims);
    AppOffsetsFit(Grouped(xs), parts, cells, l, id, xs);
    DecodeOfBlock(Grouped(xs), parts, cells, matrix, l, dims, given, id, xs);
  }
}
