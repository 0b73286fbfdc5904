/** What the grid builder encodes comes back from sampled cells of the extended grid: `from_extrinsics` and
    `extend_columns` (kate/src/gridgen/core.rs) against reconstruction (kate/recovery/src/com.rs). */
module GridRecovery {
  import opened Results
  import opened Bytes
  import opened Field
  import opened Domain
  import opened Powers2
  import opened Division
  import opened DataLookup
  import opened Matrix
  import opened Sizing
  import opened Grouping
  import opened Flattening
  import opened Unflattening
  import opened Extend
  import opened Recovery
  import opened RecoveryCorrect
  import opened BlockRecovery
  import opened EndToEnd
  import opened AppDecoding
  import opened Grid
  import opened GridRows
  import opened BuildersAgree
  import Scale

  // ---------- The grid holds all cells ----------

  /** Whatever the limits, a chosen size has room for all cells. */
  lemma DimsHoldAll(n: u32, minWidth: u64, maxWidth: u64, maxHeight: u64)
    requires GetBlockDims(n, minWidth, maxWidth, maxHeight).Ok?
    ensures var d := GetBlockDims(n, minWidth, maxWidth, maxHeight).value; n <= d.rows * d.cols
  {
    NextPow2IsLeast(n);
    if n >= maxWidth {
      WideDimsHoldAll(n, minWidth, maxWidth, maxHeight);
    } else {
      hide NextPow2;
      var d := GetBlockDims(n, minWidth, maxWidth, maxHeight).value;
      assert d.rows == 1 && d.cols >= NextPow2(n);
    }
  }

  lemma WideDimsHoldAll(n: u32, minWidth: u64, maxWidth: u64, maxHeight: u64)
    requires GetBlockDims(n, minWidth, maxWidth, maxHeight).Ok? && n >= maxWidth
    ensures var d := GetBlockDims(n, minWidth, maxWidth, maxHeight).value; n <= d.rows * d.cols
  {
    var d := GetBlockDims(n, minWidth, maxWidth, maxHeight).value;
    assert 0 < maxWidth < 0x1_0000;
    RoundUpIsCeil(n, maxWidth);
    hide NextPow2, RoundUpToMultiple;
    assert d.cols == maxWidth && d.rows == NextPow2(CeilDiv(n, maxWidth));
    hide GetBlockDims;
    NextPow2IsLeast(CeilDiv(n, maxWidth));
    CeilDivIsLeast(n, maxWidth, d.rows);
  }

  // ---------- An extended grid is an extended block ----------

  /** What a grid is made of. */
  ghost predicate GridOfGroups(g: EvaluationGrid, groups: seq<Group>, parts: seq<seq<DataChunk>>,
                               cells: seq<DataChunk>) {
    && GridCells(groups) == Some(parts)
    && FromIdAndLen(LayoutOf(groups, parts)) == Ok(g.lookup)
    && |cells| == g.dims.rows * g.dims.cols && JoinCells(parts) <= cells
    && g.columns == ColumnsOf(ScalarsOf(cells), g.dims)
  }

  lemma GridConsists(xs: seq<AppExtrinsic>, minWidth: u64, maxWidth: u64, maxHeight: u64, filler: nat -> DataChunk,
                     g: EvaluationGrid) returns (parts: seq<seq<DataChunk>>, cells: seq<DataChunk>)
    requires FromExtrinsics(xs, minWidth, maxWidth, maxHeight, filler) == Ok(g)
    ensures GridOfGroups(g, Grouped(xs), parts, cells)
  {
    GroupingsAgree(xs);
    GroupedIsGrouping(xs);
    var groups := Grouped(xs);
    hide GroupedByMap, Grouped, GridCells, FromIdAndLen, GetBlockDims, JoinCells, ScalarsOf, ColumnsOf, LayoutOf,
      Ordered, IsGrouping;
    parts := GridCells(groups).value;
    LengthOfGrid(groups, parts, g.lookup);
    DimsHoldAll(g.lookup.Len(), minWidth, maxWidth, maxHeight);
    cells := GridOf(JoinCells(parts), filler, g.dims.rows * g.dims.cols);
  }

  lemma LengthOfGrid(groups: seq<Group>, parts: seq<seq<DataChunk>>, l: DataLookup)
    requires |groups| == |parts| && FromIdAndLen(LayoutOf(groups, parts)) == Ok(l)
    ensures l.Len() == |JoinCells(parts)|
  {
    FromIdAndLenCorrect(LayoutOf(groups, parts));
    hide FromIdAndLen;
    TotalOfLayout(groups, parts);
  }

  lemma ExtendedGridIsBlock(g: EvaluationGrid, groups: seq<Group>, parts: seq<seq<DataChunk>>, cells: seq<DataChunk>)
    requires GridOfGroups(g, groups, parts, cells) && ExtendColumns(g, 2).Ok?
    ensures ExtendedBlock(g.dims, cells, ExtendColumns(g, 2).value.columns)
  {
    var n := g.dims.rows;
    AcceptedExtension(g, 2);
    assert n * 2 == 2 * n;
    FactorsOfPow2(n, 2);
    var e := ExtendColumns(g, 2).value;
    hide ExtendColumns, NewDomain, ScalarsOf, IsPow2, ExtendColumn, ColumnOf, GridCells, FromIdAndLen, JoinCells;
    var small, large := NewDomain(n).value, NewDomain(2 * n).value;
    assert e.columns == ExtendFrom(small, large, ScalarsOf(cells), n, g.dims.cols, g.dims.cols);
  }

  lemma GridIsConsistent(g: EvaluationGrid, groups: seq<Group>, parts: seq<seq<DataChunk>>, cells: seq<DataChunk>)
    requires GridOfGroups(g, groups, parts, cells) && ExtendColumns(g, 2).Ok? && Ordered(groups)
    requires |JoinCells(parts)| <= U32_MAX
    ensures Consists(groups, parts, cells, ExtendColumns(g, 2).value.columns, g.lookup, g.dims)
  {
    GridCellsCarry(groups, parts);
    ExtendedGridIsBlock(g, groups, parts, cells);
    hide GridCells, AllCarried, FromIdAndLen, JoinCells, ExtendedBlock, ExtendColumns, ScalarsOf, ColumnsOf, Ordered;
  }

  // ---------- Recovery ----------

  lemma {:induction false} ProjectionOverflows(index: seq<Entry>, i: nat)
    requires i < |index| && index[i].1.end * 32 > U32_MAX
    ensures ProjectAll(index, 32) == Err(OffsetOverflows)
  {
    if i > 0 {
      ProjectionOverflows(index[1..], i - 1);
    }
  }

  lemma LookupOverflows(l: DataLookup)
    requires 32 * l.Len() > U32_MAX
    ensures l.ProjectedRanges(32) == Err(OffsetOverflows)
  {
    ProjectionOverflows(l.index, |l.index| - 1);
  }

  lemma OverflowIsReported(l: DataLookup, dims: Dimensions, sampled: seq<DataCell>, cells: seq<DataChunk>)
    requires ReconstructAvailable(dims, sampled) == Ok(FlatBytes(cells)) && 32 * l.Len() > U32_MAX
    ensures ReconstructExtrinsics(l, dims, sampled) == Err(DataLookupError(OffsetOverflows))
  {
    LookupOverflows(l);
    hide ReconstructAvailable, FlatBytes, ProjectAll, Unflatten, DataLookup.ProjectedRanges, DataLookup.Len;
  }

  lemma GridUnfolds(g: EvaluationGrid, groups: seq<Group>, parts: seq<seq<DataChunk>>, cells: seq<DataChunk>)
    requires GridOfGroups(g, groups, parts, cells)
    ensures |groups| == |parts| && FromIdAndLen(LayoutOf(groups, parts)) == Ok(g.lookup)
  {
    hide GridCells, FromIdAndLen, JoinCells, ScalarsOf, ColumnsOf;
  }

  /** From any distinct cells of the grid extended by two that cover at least half of every column, the extrinsics come
      back, grouped and in submission order, if and only if the byte offsets of the grid fit 32 bits; otherwise their
      overflow is reported. */
  lemma GridExtrinsicsComeBack(xs: seq<AppExtrinsic>, minWidth: u64, maxWidth: u64, maxHeight: u64,
                               filler: nat -> DataChunk, g: EvaluationGrid, e: EvaluationGrid, sampled: seq<DataCell>)
    requires PrimeModulus()
    requires FromExtrinsics(xs, minWidth, maxWidth, maxHeight, filler) == Ok(g) && ExtendColumns(g, 2) == Ok(e)
    requires SamplesMatrix(sampled, e.columns, g.dims) && EveryColumnHalf(sampled, g.dims)
    ensures IsGrouping(Grouped(xs), xs)
    ensures ReconstructExtrinsics(g.lookup, g.dims, sampled)
      == if 32 * g.lookup.Len() <= 0xffff_ffff then Ok(Grouped(xs)) else Err(DataLookupError(OffsetOverflows))
  {
    assert U32_MAX == 0xffff_ffff;
    hide *;
    var groups := Grouped(xs);
    var parts, cells := GridConsists(xs, minWidth, maxWidth, maxHeight, filler, g);
    GroupedIsGrouping(xs);
    OrderOfGrouping(groups, xs);
    GridUnfolds(g, groups, parts, cells);
    LengthOfGrid(groups, parts, g.lookup);
    ExtendedGridIsBlock(g, groups, parts, cells);
    DataComesBack(g.dims, cells, e.columns, sampled);
    if 32 * g.lookup.Len() <= 0xffff_ffff {
      GridIsConsistent(g, groups, parts, cells);
      OffsetsUnfold(parts);
      UnflattenConsisting(groups, parts, cells, e.columns, g.lookup, g.dims);
      ReconstructUnfolds(g.lookup, g.dims, sampled, cells, groups);
    } else {
      OverflowIsReported(g.lookup, g.dims, sampled, cells);
    }
  }

  lemma OffsetsUnfold(parts: seq<seq<DataChunk>>)
    ensures OffsetsFit(parts) <==> 32 * |JoinCells(parts)| <= 0xffff_ffff
  {
    hide JoinCells;
  }

  /** One application of a grid extended by two, by decoding any cells that were given, and by reconstruction from
      half of the columns that its range touches, the others being absent or half there themselves. */
  lemma GridAppComesBack(xs: seq<AppExtrinsic>, minWidth: u64, maxWidth: u64, maxHeight: u64, filler: nat -> DataChunk,
                         g: EvaluationGrid, e: EvaluationGrid, sampled: seq<DataCell>, id: AppId)
    requires PrimeModulus()
    requires FromExtrinsics(xs, minWidth, maxWidth, maxHeight, filler) == Ok(g) && ExtendColumns(g, 2) == Ok(e)
    requires SamplesMatrix(sampled, e.columns, g.dims)
    ensures DecodesRight(g.lookup, g.dims, sampled, id, xs)
    ensures HalfForApp(g, sampled, id) ==> AppComesBack(g.lookup, g.dims, sampled, id, xs)
  {
    hide PrimeModulus, FromExtrinsics, ExtendColumns, SamplesMatrix, Grouped, DecodesRight, AppComesBack, Consists,
      IsGrouping, Ordered, GridOfGroups, FromIdAndLen, JoinCells, FindRange, AbsentOrHalf, RangeColumnsHalf;
    var groups := Grouped(xs);
    var parts, cells := GridConsists(xs, minWidth, maxWidth, maxHeight, filler, g);
    GroupedIsGrouping(xs);
    OrderOfGrouping(groups, xs);
    GridUnfolds(g, groups, parts, cells);
    LengthOfGrid(groups, parts, g.lookup);
    GridIsConsistent(g, groups, parts, cells);
    DecodeOfBlock(groups, parts, cells, e.columns, g.lookup, g.dims, sampled, id, xs);
    if HalfForApp(g, sampled, id) {
      AppOfBlock(groups, parts, cells, e.columns, g.lookup, g.dims, sampled, id, xs);
    }
  }

  /** Half of each column of the application's range is there; the other columns are absent or half there. */
  ghost predicate HalfForApp(g: EvaluationGrid, sampled: seq<DataCell>, id: AppId) {
    && AbsentOrHalf(sampled, g.dims)
    && (g.lookup.RangeOf(id).Some? ==> RangeColumnsHalf(sampled, g.dims, g.lookup.RangeOf(id).value))
  }

  // ---------- The rows of a built grid ----------

  lemma TileAt(index: seq<Entry>, j: nat)
    requires Tiles(index, 0) && j < |index|
    ensures index[j].1.start < index[j].1.end
    ensures j > 0 ==> index[j].1.start == index[j - 1].1.end
  {}

  lemma {:induction false} TiledEnds(index: seq<Entry>, i: nat, j: nat)
    requires Tiles(index, 0) && i <= j < |index|
    ensures index[i].1.end <= index[j].1.end
  {
    hide Tiles;
    if i < j {
      TiledEnds(index, i, j - 1);
      TileAt(index, j);
    }
  }

  /** The ranges of an index built from ids and lengths are not empty and end within its length. */
  lemma RangesInside(entries: seq<(AppId, nat)>, l: DataLookup, id: AppId, range: Range)
    requires FromIdAndLen(entries) == Ok(l) && l.RangeOf(id) == Some(range)
    ensures range.start < range.end <= l.Len()
  {
    hide FromIdAndLen, Tiles, Buildable, Total;
    FromIdAndLenCorrect(entries);
    var i := FindEntry(l.index, id);
    hide FindRange;
    TileAt(l.index, i);
    TiledEnds(l.index, i, |l.index| - 1);
  }

  lemma BuiltGridIsValid(g: EvaluationGrid, groups: seq<Group>, parts: seq<seq<DataChunk>>, cells: seq<DataChunk>)
    requires GridOfGroups(g, groups, parts, cells)
    ensures ValidGrid(g) && |JoinCells(parts)| <= g.dims.Size()
  {
    hide GridCells, FromIdAndLen, JoinCells, ScalarsOf;
  }

  /** On every grid that was built from extrinsics and extended by two, the rows that `app_rows` returns, the rows that
      a client asks for and the rows of the application's cells are the same. */
  lemma AppRowsOfBuiltGrid(xs: seq<AppExtrinsic>, minWidth: u64, maxWidth: u64, maxHeight: u64,
                           filler: nat -> DataChunk, g: EvaluationGrid, e: EvaluationGrid, id: AppId)
    requires PrimeModulus()
    requires FromExtrinsics(xs, minWidth, maxWidth, maxHeight, filler) == Ok(g) && ExtendColumns(g, 2) == Ok(e)
    ensures ValidGrid(g) && ValidGrid(e)
    ensures RowsOfCells(AppSpecificRows(g.lookup, g.dims, id), CellsOrNone(g.lookup, g.dims, id))
    ensures AppRows(e, id, Some(g.dims)).Ok? <==> g.lookup.RangeOf(id).Some?
    ensures AppRows(e, id, Some(g.dims)).Ok? ==>
      SameIndices(AppRows(e, id, Some(g.dims)).value, AppSpecificRows(g.lookup, g.dims, id))
  {
    hide *;
    var parts, cells := GridConsists(xs, minWidth, maxWidth, maxHeight, filler, g);
    BuiltGridIsValid(g, Grouped(xs), parts, cells);
    ExtendColumnsIsSystematic(g, 2);
    AppSpecificRowsExactly(g.lookup, g.dims, id);
    if g.lookup.RangeOf(id).Some? {
      var range := g.lookup.RangeOf(id).value;
      GridUnfolds(g, Grouped(xs), parts, cells);
      LengthOfGrid(Grouped(xs), parts, g.lookup);
      RangesInside(LayoutOf(Grouped(xs), parts), g.lookup, id, range);
      InnerRange(g.dims, range);
      AppRowsAgree(g, id, range);
    } else {
      NoAppRows(e, g, id);
    }
  }

  lemma InnerRange(dims: Dimensions, range: Range)
    requires range.start < range.end <= dims.Size()
    ensures RowsAreFaithful(dims, range) && BothSidesAgree(dims, range)
  {
    FirstBeforeLast(dims, range);
    hide FirstRow, LastRow, Dimensions.ExtendedDataRow;
  }

  lemma NoAppRows(e: EvaluationGrid, g: EvaluationGrid, id: AppId)
    requires ValidGrid(e) && e.lookup == g.lookup && g.lookup.RangeOf(id) == None
    ensures AppRows(e, id, Some(g.dims)).Err?
  {
    hide FindRange, RowsAt;
  }

  // ---------- A grid whose byte offsets do not fit ----------

  /** One extrinsic of 31 * 2^27 bytes. */
  function HugeList(): seq<AppExtrinsic> {
    [AppExtrinsic(1, ZeroBytes(4160749568))]
  }

  lemma LengthOfOne(d: seq<byte>)
    requires |d| <= U32_MAX && Scale.Encodable([d])
    ensures |d| < |Scale.Encode([d])| <= |d| + 6
  {
    OneItem(d);
    hide Scale.Encode, Scale.Encodable, Grouped;
  }

  lemma CellsOfOne(groups: seq<Group>)
    requires |groups| == 1 && Scale.Encodable(groups[0].1)
    ensures GridCells(groups) == Some([PaddedChunks(Scale.Encode(groups[0].1))])
  {
    hide Scale.Encode, Scale.Encodable, PaddedChunks;
    var part := PaddedChunks(Scale.Encode(groups[0].1));
    assert groups[1..] == [];
    assert GridCells(groups[1..]) == Some([]);
    assert [part] + [] == [part];
  }

  lemma HugeLayout() returns (parts: seq<seq<DataChunk>>)
    ensures GroupedByMap(HugeList()) == Grouped(HugeList()) && |Grouped(HugeList())| == 1
    ensures GridCells(Grouped(HugeList())) == Some(parts) && |parts| == 1 && 0x800_0000 < |parts[0]| <= 0x800_0001
    ensures |JoinCells(parts)| == |parts[0]|
    ensures FromIdAndLen(LayoutOf(Grouped(HugeList()), parts)) == Ok(DataLookup([(1, Range(0, |parts[0]|))]))
  {
    var d := ZeroBytes(4160749568);
    OneItem(d);
    GroupingsAgree(HugeList());
    var items, enc := [d], Scale.Encode([d]);
    LengthOfOne(d);
    HugeCount(|enc|);
    PaddedChunksCount(enc);
    hide Scale.Encode, Scale.Encodable, PaddedChunks, Grouped, GroupedByMap, HugeList, ZeroBytes, CeilDiv;
    var groups: seq<Group> := [(1, items)];
    var part := PaddedChunks(enc);
    parts := [part];
    CellsOfOne(groups);
    OneGroup(part, 1);
    assert LayoutOf(groups, parts) == [(1, |part|)];
  }

  lemma HugeCount(n: nat)
    requires 4160749568 < n <= 4160749568 + 31
    ensures 0x800_0000 < CeilDiv(n, 31) <= 0x800_0001
  {
    CeilDivIsLeast(n, 31, 0x800_0000);
    CeilDivIsLeast(n, 31, 0x800_0001);
  }

  lemma HugeDims(n: u32) returns (d: Dimensions)
    requires 0x800_0000 < n <= 0x800_0001
    ensures GetBlockDims(n, 4, 0xffff, 0xffff) == Ok(d) && IsPow2(d.rows) && d.rows < 0x2000
  {
    RoundUpIsCeil(n, 0xffff);
    CeilDivIsLeast(n, 0xffff, 2050);
    NextPow2IsLeast(CeilDiv(n, 0xffff));
    hide NextPow2, RoundUpToMultiple, CeilDiv;
    d := Dimensions(NextPow2(CeilDiv(n, 0xffff)), 0xffff);
  }

  lemma SmallGridExtends(g: EvaluationGrid)
    requires IsPow2(g.dims.rows) && g.dims.rows < 0x2000
    ensures ExtendColumns(g, 2).Ok?
  {
    DoubledDomain(g.dims.rows);
    hide NewDomain, ExtendEach, IsPow2;
  }

  /** Such a grid exists, and it can be extended. */
  lemma OffsetsCanOverflow(filler: nat -> DataChunk)
    ensures var g := FromExtrinsics(HugeList(), 4, 0xffff, 0xffff, filler);
      g.Ok? && 32 * g.value.lookup.Len() > 0xffff_ffff && ExtendColumns(g.value, 2).Ok?
  {
    var parts := HugeLayout();
    var l := DataLookup([(1, Range(0, |parts[0]|))]);
    assert l.Len() == |parts[0]|;
    var d := HugeDims(|parts[0]|);
    hide *;
    GridOfExtrinsics(HugeList(), 0xffff, 0xffff, filler, Grouped(HugeList()), parts, l);
    SmallGridExtends(FromExtrinsics(HugeList(), 4, 0xffff, 0xffff, filler).value);
  }
}
