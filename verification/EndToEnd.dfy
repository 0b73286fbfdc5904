/** The whole pipeline: flatten, extend, sample, reconstruct. What comes back is what was submitted, grouped. */
module EndToEnd {
  import opened Results
  import opened Bytes
  import opened Field
  import opened Powers2
  import opened DataLookup
  import opened Matrix
  import opened Sizing
  import opened OrderedMap
  import opened Grouping
  import opened Flattening
  import opened Unflattening
  import opened Extend
  import opened Recovery
  import opened RecoveryCorrect
  import opened BlockRecovery

  /** A block as the builder produces it: flattened, extended, with the index of its layout and its dimensions. */
  ghost predicate Built(maxRows: u32, maxCols: u32, xs: seq<AppExtrinsic>, filler: nat -> DataChunk,
                        matrix: seq<seq<Scalar>>, l: DataLookup, dims: Dimensions)
  {
    && Flatten(maxRows, maxCols, xs, filler).Ok?
    && var f := Flatten(maxRows, maxCols, xs, filler).value;
    && ExtendMatrix(f.dims, f.data) == Ok(matrix)
    && FromIdAndLen(f.layout) == Ok(l)
    && NewDimensions(f.dims.rows, f.dims.cols) == Some(dims)
  }

  /** What a built block consists of. */
  ghost predicate Consists(groups: seq<Group>, parts: seq<seq<DataChunk>>, cells: seq<DataChunk>,
                           matrix: seq<seq<Scalar>>, l: DataLookup, dims: Dimensions)
  {
    && IndexOf(l, groups, parts) && JoinCells(parts) <= cells && ExtendedBlock(dims, cells, matrix)
  }

  /** Once a block is flattened, its index and dimensions exist, and it extends exactly when it fits 16 bits. */
  lemma FlattenedBlockBuilds(maxRows: u32, maxCols: u32, xs: seq<AppExtrinsic>, filler: nat -> DataChunk)
    requires Flatten(maxRows, maxCols, xs, filler).Ok?
    ensures var f := Flatten(maxRows, maxCols, xs, filler).value;
      && FromIdAndLen(f.layout).Ok? && |f.data| == f.dims.size
      && (2 * f.dims.rows < 0x1_0000 && f.dims.cols < 0x1_0000 <==> ExtendMatrix(f.dims, f.data).Ok?)
      && (ExtendMatrix(f.dims, f.data).Ok? ==>
            Built(maxRows, maxCols, xs, filler, ExtendMatrix(f.dims, f.data).value, FromIdAndLen(f.layout).value,
                  Dimensions(f.dims.rows, f.dims.cols)))
  {
    hide *;
    var f := Flatten(maxRows, maxCols, xs, filler).value;
    var parts := FlattenUnfolds(maxRows, maxCols, xs, filler);
    var cells := BlockIsFull(f, maxRows, maxCols, Grouped(xs), parts, filler);
    GroupedIsGrouping(xs);
    LayoutOfBlock(f, maxRows, maxCols, Grouped(xs), parts, filler, xs);
    ShapeOfBlock(f, maxRows, maxCols, Grouped(xs), parts, filler, cells);
    ExtendSucceedsExactly(f.dims, cells);
    BuiltUnfolds(maxRows, maxCols, xs, filler);
  }

  lemma BuiltUnfolds(maxRows: u32, maxCols: u32, xs: seq<AppExtrinsic>, filler: nat -> DataChunk)
    requires Flatten(maxRows, maxCols, xs, filler).Ok?
    requires var f := Flatten(maxRows, maxCols, xs, filler).value;
      ExtendMatrix(f.dims, f.data).Ok? ==> 0 < f.dims.rows && 0 < f.dims.cols < 0x1_0000 && 2 * f.dims.rows < 0x1_0000
    requires FromIdAndLen(Flatten(maxRows, maxCols, xs, filler).value.layout).Ok?
    ensures var f := Flatten(maxRows, maxCols, xs, filler).value;
      ExtendMatrix(f.dims, f.data).Ok? ==>
        0 < f.dims.rows < 0x1_0000 && 0 < f.dims.cols < 0x1_0000 &&
        Built(maxRows, maxCols, xs, filler, ExtendMatrix(f.dims, f.data).value, FromIdAndLen(f.layout).value,
              Dimensions(f.dims.rows, f.dims.cols))
  {
    hide Flatten, ExtendMatrix, FromIdAndLen;
  }

  lemma LayoutOfBlock(f: Flattened, maxRows: u32, maxCols: u32, groups: seq<Group>, parts: seq<seq<DataChunk>>,
                      filler: nat -> DataChunk, xs: seq<AppExtrinsic>)
    requires MadeOf(f, maxRows, maxCols, groups, parts, filler) && IsGrouping(groups, xs)
    ensures FromIdAndLen(f.layout).Ok? && IndexOf(FromIdAndLen(f.layout).value, groups, parts) && OffsetsFit(parts)
  {
    hide FlatBytes, GetBlockDimensions, CellsOfGroups, AllCarried, JoinCells, FromIdAndLen, Lookup, DataOf;
    CellsOfGroupsCarry(groups, parts);
    LayoutBuilds(groups, parts);
  }

  lemma ShapeOfBlock(f: Flattened, maxRows: u32, maxCols: u32, groups: seq<Group>, parts: seq<seq<DataChunk>>,
                     filler: nat -> DataChunk, cells: seq<DataChunk>)
    requires MadeOf(f, maxRows, maxCols, groups, parts, filler) && HoldsCells(f, groups, parts, cells)
    ensures IsPow2(f.dims.rows) && f.dims.rows > 0 && f.dims.cols > 0
    ensures f.data == FlatBytes(cells) && |cells| == f.dims.rows * f.dims.cols && JoinCells(parts) <= cells
  {
    hide FlatBytes, GetBlockDimensions, CellsOfGroups, JoinCells;
    BlockDimensionsShape(32 * |JoinCells(parts)|, maxRows, maxCols);
  }

  /** Unflattening undoes flattening, whatever the filler: the index of the layout exists, none of its projected ranges
      overflows, is empty or leaves the data, and what they hold is the grouping of the extrinsics. */
  lemma UnflattenUndoesFlatten(maxRows: u32, maxCols: u32, xs: seq<AppExtrinsic>, filler: nat -> DataChunk)
    requires Flatten(maxRows, maxCols, xs, filler).Ok?
    ensures var f := Flatten(maxRows, maxCols, xs, filler).value;
      && |f.data| == f.dims.size && FromIdAndLen(f.layout).Ok?
      && var ranges := FromIdAndLen(f.layout).value.ProjectedRanges(32);
      && ranges.Ok? && (forall e :: e in ranges.value ==> e.1.start < e.1.end <= |f.data|)
      && Unflatten(ranges.value, f.data).Ok? && IsGrouping(Unflatten(ranges.value, f.data).value, xs)
  {
    hide *;
    var f := Flatten(maxRows, maxCols, xs, filler).value;
    var parts := FlattenUnfolds(maxRows, maxCols, xs, filler);
    var cells := BlockIsFull(f, maxRows, maxCols, Grouped(xs), parts, filler);
    GroupedIsGrouping(xs);
    LayoutOfBlock(f, maxRows, maxCols, Grouped(xs), parts, filler, xs);
    ShapeOfBlock(f, maxRows, maxCols, Grouped(xs), parts, filler, cells);
    ProjectedRangesInBounds(FromIdAndLen(f.layout).value, Grouped(xs), parts, cells);
    UnflattenRestores(FromIdAndLen(f.layout).value, Grouped(xs), parts, cells);
  }

  lemma BuiltConsists(maxRows: u32, maxCols: u32, xs: seq<AppExtrinsic>, filler: nat -> DataChunk,
                      matrix: seq<seq<Scalar>>, l: DataLookup, dims: Dimensions)
    returns (parts: seq<seq<DataChunk>>, cells: seq<DataChunk>)
    requires Built(maxRows, maxCols, xs, filler, matrix, l, dims)
    ensures Consists(Grouped(xs), parts, cells, matrix, l, dims) && IsGrouping(Grouped(xs), xs) && OffsetsFit(parts)
  {
    var f := Flatten(maxRows, maxCols, xs, filler).value;
    assert dims == Dimensions(f.dims.rows, f.dims.cols);
    hide Flatten, ExtendMatrix, FromIdAndLen, MadeOf, HoldsCells, FlatBytes, JoinCells, ExtendedBlock, IndexOf, Grouped;
    parts := FlattenUnfolds(maxRows, maxCols, xs, filler);
    cells := BlockIsFull(f, maxRows, maxCols, Grouped(xs), parts, filler);
    GroupedIsGrouping(xs);
    LayoutOfBlock(f, maxRows, maxCols, Grouped(xs), parts, filler, xs);
    ShapeOfBlock(f, maxRows, maxCols, Grouped(xs), parts, filler, cells);
    ExtendSucceedsExactly(f.dims, cells);
  }

  // ---------- All extrinsics ----------

  ghost predicate EveryColumnHalf(sampled: seq<DataCell>, dims: Dimensions) {
    forall c: u16 :: c < dims.cols ==> CountInColumn(sampled, c) >= dims.rows
  }

  /** From any distinct cells of the extended matrix that cover at least half of every column, every extrinsic comes
      back, grouped by application in ascending order and in submission order within each. */
  lemma ExtrinsicsComeBack(maxRows: u32, maxCols: u32, xs: seq<AppExtrinsic>, filler: nat -> DataChunk,
                           matrix: seq<seq<Scalar>>, l: DataLookup, dims: Dimensions, sampled: seq<DataCell>)
    requires PrimeModulus()
    requires Built(maxRows, maxCols, xs, filler, matrix, l, dims)
    requires SamplesMatrix(sampled, matrix, dims) && EveryColumnHalf(sampled, dims)
    ensures ReconstructExtrinsics(l, dims, sampled).Ok?
    ensures IsGrouping(ReconstructExtrinsics(l, dims, sampled).value, xs)
  {
    hide *;
    var parts, cells := BuiltConsists(maxRows, maxCols, xs, filler, matrix, l, dims);
    ConsistsUnfolds(Grouped(xs), parts, cells, matrix, l, dims);
    DataComesBack(dims, cells, matrix, sampled);
    UnflattenConsisting(Grouped(xs), parts, cells, matrix, l, dims);
    ReconstructUnfolds(l, dims, sampled, cells, Grouped(xs));
  }

  lemma DataComesBack(dims: Dimensions, cells: seq<DataChunk>, matrix: seq<seq<Scalar>>, sampled: seq<DataCell>)
    requires PrimeModulus() && ExtendedBlock(dims, cells, matrix)
    requires SamplesMatrix(sampled, matrix, dims) && EveryColumnHalf(sampled, dims)
    ensures ReconstructAvailable(dims, sampled) == Ok(FlatBytes(cells))
  {
    hide ReconstructAvailable, FlatBytes, PadToChunk, SamplesMatrix, ExtendedBlock, FlatChunks, CountInColumn,
      PrimeModulus;
    assert AbsentOrHalf(sampled, dims);
    BlockFacts(dims, cells, matrix);
    var chunks := AvailableData(dims, cells, matrix, sampled);
    forall k | 0 <= k < |cells|
      ensures chunks[k] == PadToChunk(cells[k])
    {
      var c: u16 := k % dims.cols;
      assert CountInColumn(sampled, c) >= dims.rows;
    }
    FlatChunksOfCells(chunks, cells);
  }

  lemma UnflattenConsisting(groups: seq<Group>, parts: seq<seq<DataChunk>>, cells: seq<DataChunk>,
                            matrix: seq<seq<Scalar>>, l: DataLookup, dims: Dimensions)
    requires Consists(groups, parts, cells, matrix, l, dims) && OffsetsFit(parts)
    ensures l.ProjectedRanges(32).Ok?
    ensures Unflatten(l.ProjectedRanges(32).value, FlatBytes(cells)) == Ok(groups)
  {
    hide Unflatten, FlatBytes, JoinCells, IndexOf;
    UnflattenRestores(l, groups, parts, cells);
  }

  lemma ReconstructUnfolds(l: DataLookup, dims: Dimensions, sampled: seq<DataCell>, cells: seq<DataChunk>,
                           groups: seq<Group>)
    requires ReconstructAvailable(dims, sampled) == Ok(FlatBytes(cells))
    requires l.ProjectedRanges(32).Ok? && Unflatten(l.ProjectedRanges(32).value, FlatBytes(cells)) == Ok(groups)
    ensures ReconstructExtrinsics(l, dims, sampled) == Ok(groups)
  {
    hide ReconstructAvailable, FlatBytes, Unflatten;
  }

  // ---------- One application ----------

  /** Every column that a cell of the range lies in has at least half of its cells. */
  ghost predicate RangeColumnsHalf(sampled: seq<DataCell>, dims: Dimensions, range: Range) {
    forall k: int :: range.start <= k < range.end ==> CountInColumn(sampled, k % dims.cols) >= dims.rows
  }

  lemma {:induction false} FindEntry(index: seq<Entry>, id: AppId) returns (i: nat)
    requires FindRange(index, id).Some?
    ensures i < |index| && index[i].0 == id && FindRange(index, id) == Some(index[i].1)
  {
    if index[0].0 == id {
      i := 0;
    } else {
      i := FindEntry(index[1..], id);
      i := i + 1;
    }
  }

  /** The entry of an application in the index of a block. */
  lemma EntryOf(groups: seq<Group>, parts: seq<seq<DataChunk>>, cells: seq<DataChunk>, l: DataLookup, id: AppId,
                xs: seq<AppExtrinsic>) returns (i: nat)
    requires IndexOf(l, groups, parts) && JoinCells(parts) <= cells && IsGrouping(groups, xs) && l.RangeOf(id).Some?
    ensures i < |l.index| == |groups| == |parts| && groups[i].0 == id && groups[i].1 == DataOf(xs, id)
    ensures l.RangeOf(id) == Some(l.index[i].1)
    ensures l.index[i].1.start < l.index[i].1.end <= |JoinCells(parts)| <= |cells|
    ensures Carries(groups[i].1, parts[i])
  {
    i := FindEntry(l.index, id);
    IndexLength(l, groups, parts);
    hide IndexOf, JoinCells, Carries, FindRange, DataOf, Lookup;
    IndexAt(l, groups, parts, i);
    LookupAt(groups, i);
    assert Lookup(groups, id) == DataOf(xs, id);
  }

  /** An application has an entry exactly when it submitted something. */
  lemma EntryExists(groups: seq<Group>, parts: seq<seq<DataChunk>>, l: DataLookup, id: AppId, xs: seq<AppExtrinsic>)
    requires IndexOf(l, groups, parts) && IsGrouping(groups, xs)
    ensures l.RangeOf(id) == None <==> DataOf(xs, id) == []
  {
    IndexLength(l, groups, parts);
    FindRangeFails(l.index, id);
    hide IndexOf, DataOf, Lookup, FindRange;
    if l.RangeOf(id) == None {
      forall i | 0 <= i < |groups|
        ensures groups[i].0 != id
      {
        IndexAt(l, groups, parts, i);
      }
      LookupMissing(groups, id);
    } else {
      var i :| 0 <= i < |l.index| && l.index[i].0 == id;
      IndexAt(l, groups, parts, i);
      LookupAt(groups, i);
    }
    assert Lookup(groups, id) == DataOf(xs, id);
  }

  /** Data that agrees with the block on an application's range unflattens to its extrinsics. */
  lemma AppUnflattens(groups: seq<Group>, parts: seq<seq<DataChunk>>, cells: seq<DataChunk>, l: DataLookup, id: AppId,
                      xs: seq<AppExtrinsic>, data: seq<byte>)
    requires IndexOf(l, groups, parts) && JoinCells(parts) <= cells && IsGrouping(groups, xs) && l.RangeOf(id).Some?
    requires |data| == 32 * |cells|
    requires var r := l.RangeOf(id).value;
      && (r.start <= r.end <= |cells| ==> data[32 * r.start..32 * r.end] == FlatBytes(cells)[32 * r.start..32 * r.end])
      && r.end * 32 <= U32_MAX
    ensures l.ProjectedRangeOf(id, 32).Some?
    ensures var r := Unflatten([(id, l.ProjectedRangeOf(id, 32).value)], data);
      r.Ok? && AllItems(r.value) == DataOf(xs, id)
  {
    hide *;
    var i := EntryOf(groups, parts, cells, l, id, xs);
    var r := l.index[i].1;
    GroupRangeHolds(l, groups, parts, cells, i, data);
    var range := Range(r.start * 32, r.end * 32);
    ProjectedOf(l, id, r);
    RangeHoldsUnfolds((groups[i].0, range), groups[i], parts[i], data);
    RangeDecodes(range, data, groups[i].1, parts[i]);
    SingleRange(id, range, data, groups[i].1, |cells|);
  }

  lemma ProjectedOf(l: DataLookup, id: AppId, r: Range)
    requires l.RangeOf(id) == Some(r) && r.start <= r.end && r.end * 32 <= U32_MAX
    ensures l.ProjectedRangeOf(id, 32) == Some(Range(r.start * 32, r.end * 32))
  {
    hide FindRange;
  }

  lemma RangeHoldsUnfolds(entry: Entry, group: Group, part: seq<DataChunk>, data: seq<byte>)
    requires RangeHolds(entry, group, part, data)
    ensures Carries(group.1, part) && entry.1.start <= entry.1.end <= |data|
    ensures data[entry.1.start..entry.1.end] == FlatBytes(part)
  {
    hide Carries, FlatBytes;
  }

  lemma SingleRange(id: AppId, range: Range, data: seq<byte>, items: seq<seq<byte>>, n: nat)
    requires UnflattenRange(range, data) == Ok(items) && |data| == 32 * n
    ensures Unflatten([(id, range)], data) == Ok([(id, items)]) && AllItems([(id, items)]) == items
  {
    hide UnflattenRange;
    var ranges: seq<Entry> := [(id, range)];
    assert ranges[0].1 == range && ranges[1..] == [];
    assert UnflattenRanges(ranges[1..], data) == Ok([]);
    var groups: seq<Group> := [(id, items)];
    assert groups + [] == groups;
    assert UnflattenRanges(ranges, data) == Ok(groups);
    WholeChunks(ranges, data, n);
    assert groups[1..] == [] && AllItems(groups[1..]) == [];
    assert items + [] == items;
  }

  /** What reconstruction answers for one application: its extrinsics, unless it has none or its byte offsets do not fit
      32 bits, in which case it is reported missing. */
  ghost predicate AppComesBack(l: DataLookup, dims: Dimensions, sampled: seq<DataCell>, id: AppId,
                               xs: seq<AppExtrinsic>) {
    ReconstructAppExtrinsics(l, dims, sampled, id)
      == if l.RangeOf(id).Some? && 32 * l.RangeOf(id).value.end <= U32_MAX
         then Ok(DataOf(xs, id)) else Err(MissingId(id))
  }

  lemma AppOfBlock(groups: seq<Group>, parts: seq<seq<DataChunk>>, cells: seq<DataChunk>, matrix: seq<seq<Scalar>>,
                   l: DataLookup, dims: Dimensions, sampled: seq<DataCell>, id: AppId, xs: seq<AppExtrinsic>)
    requires PrimeModulus() && Consists(groups, parts, cells, matrix, l, dims) && IsGrouping(groups, xs)
    requires SamplesMatrix(sampled, matrix, dims) && AbsentOrHalf(sampled, dims)
    requires l.RangeOf(id).Some? ==> RangeColumnsHalf(sampled, dims, l.RangeOf(id).value)
    ensures AppComesBack(l, dims, sampled, id, xs)
  {
    assert U32_MAX == 0xffff_ffff;
    hide *;
    ConsistsUnfolds(groups, parts, cells, matrix, l, dims);
    var chunks := AvailableData(dims, cells, matrix, sampled);
    if l.RangeOf(id).Some? && 32 * l.RangeOf(id).value.end <= U32_MAX {
      var i := EntryOf(groups, parts, cells, l, id, xs);
      RangeComesBack(dims, cells, sampled, chunks, l.index[i].1);
      AppUnflattens(groups, parts, cells, l, id, xs, FlatChunks(chunks));
      FoundApp(l, dims, sampled, id, FlatChunks(chunks));
    } else {
      MissingApp(l, dims, sampled, id, FlatChunks(chunks));
    }
    AppAnswer(l, dims, sampled, id, xs);
  }

  lemma AppAnswer(l: DataLookup, dims: Dimensions, sampled: seq<DataCell>, id: AppId, xs: seq<AppExtrinsic>)
    requires ReconstructAppExtrinsics(l, dims, sampled, id)
      == if l.RangeOf(id).Some? && 32 * l.RangeOf(id).value.end <= U32_MAX
         then Ok(DataOf(xs, id)) else Err(MissingId(id))
    ensures AppComesBack(l, dims, sampled, id, xs)
  {
    hide ReconstructAppExtrinsics, FindRange, DataOf;
  }

  /** The offsets of every application of a flat block fit. */
  lemma AppOffsetsFit(groups: seq<Group>, parts: seq<seq<DataChunk>>, cells: seq<DataChunk>, l: DataLookup, id: AppId,
                      xs: seq<AppExtrinsic>)
    requires IndexOf(l, groups, parts) && JoinCells(parts) <= cells && IsGrouping(groups, xs) && OffsetsFit(parts)
    ensures l.RangeOf(id).Some? ==> 32 * l.RangeOf(id).value.end <= U32_MAX
    ensures l.RangeOf(id) == None <==> DataOf(xs, id) == []
  {
    hide IndexOf, JoinCells, IsGrouping, FindRange, DataOf, Carries;
    EntryExists(groups, parts, l, id, xs);
    if l.RangeOf(id).Some? {
      var i := EntryOf(groups, parts, cells, l, id, xs);
    }
  }

  lemma AppComesBackUnfolds(l: DataLookup, dims: Dimensions, sampled: seq<DataCell>, id: AppId, xs: seq<AppExtrinsic>)
    requires AppComesBack(l, dims, sampled, id, xs) && (l.RangeOf(id).Some? ==> 32 * l.RangeOf(id).value.end <= U32_MAX)
    ensures ReconstructAppExtrinsics(l, dims, sampled, id)
      == if l.RangeOf(id) == None then Err(MissingId(id)) else Ok(DataOf(xs, id))
  {
    hide ReconstructAppExtrinsics, FindRange, DataOf;
  }

  /** An application's extrinsics come back from half of each column its range touches; the other columns may be absent
      or must be at least half there themselves. An application that submitted nothing is reported missing. */
  lemma AppExtrinsicsComeBack(maxRows: u32, maxCols: u32, xs: seq<AppExtrinsic>, filler: nat -> DataChunk,
                              matrix: seq<seq<Scalar>>, l: DataLookup, dims: Dimensions, sampled: seq<DataCell>,
                              id: AppId)
    requires PrimeModulus()
    requires Built(maxRows, maxCols, xs, filler, matrix, l, dims)
    requires SamplesMatrix(sampled, matrix, dims) && AbsentOrHalf(sampled, dims)
    requires l.RangeOf(id).Some? ==> RangeColumnsHalf(sampled, dims, l.RangeOf(id).value)
    ensures ReconstructAppExtrinsics(l, dims, sampled, id)
      == if DataOf(xs, id) == [] then Err(MissingId(id)) else Ok(DataOf(xs, id))
  {
    hide *;
    var parts, cells := BuiltConsists(maxRows, maxCols, xs, filler, matrix, l, dims);
    ConsistsUnfolds(Grouped(xs), parts, cells, matrix, l, dims);
    AppOfBlock(Grouped(xs), parts, cells, matrix, l, dims, sampled, id, xs);
    AppOffsetsFit(Grouped(xs), parts, cells, l, id, xs);
    AppComesBackUnfolds(l, dims, sampled, id, xs);
  }

  lemma ConsistsUnfolds(groups: seq<Group>, parts: seq<seq<DataChunk>>, cells: seq<DataChunk>, matrix: seq<seq<Scalar>>,
                        l: DataLookup, dims: Dimensions)
    requires Consists(groups, parts, cells, matrix, l, dims)
    ensures IndexOf(l, groups, parts) && JoinCells(parts) <= cells && ExtendedBlock(dims, cells, matrix)
  {
    hide IndexOf, JoinCells, ExtendedBlock;
  }

  lemma RangeComesBack(dims: Dimensions, cells: seq<DataChunk>, sampled: seq<DataCell>, chunks: seq<Chunk>,
                       range: Range)
    requires |chunks| == |cells| && range.start <= range.end <= |cells| && RangeColumnsHalf(sampled, dims, range)
    requires forall k :: 0 <= k < |cells| ==>
      chunks[k] == if CountInColumn(sampled, k % dims.cols) > 0 then PadToChunk(cells[k]) else ZeroBytes(32)
    ensures FlatChunks(chunks)[32 * range.start..32 * range.end] == FlatBytes(cells)[32 * range.start..32 * range.end]
  {
    hide PadToChunk, FlatChunks, FlatBytes, CountInColumn;
    DataAgrees(chunks, cells, range.start, range.end);
  }

  lemma FoundApp(l: DataLookup, dims: Dimensions, sampled: seq<DataCell>, id: AppId, data: seq<byte>)
    requires ReconstructAvailable(dims, sampled) == Ok(data) && l.ProjectedRangeOf(id, 32).Some?
    requires Unflatten([(id, l.ProjectedRangeOf(id, 32).value)], data).Ok?
    ensures ReconstructAppExtrinsics(l, dims, sampled, id)
      == Ok(AllItems(Unflatten([(id, l.ProjectedRangeOf(id, 32).value)], data).value))
  {
    hide ReconstructAvailable, Unflatten, AllItems;
  }

  lemma MissingApp(l: DataLookup, dims: Dimensions, sampled: seq<DataCell>, id: AppId, data: seq<byte>)
    requires ReconstructAvailable(dims, sampled) == Ok(data)
    requires l.RangeOf(id).Some? ==> 32 * l.RangeOf(id).value.end > U32_MAX
    ensures ReconstructAppExtrinsics(l, dims, sampled, id) == Err(MissingId(id))
  {
    hide ReconstructAvailable, Unflatten, AllItems, FindRange;
  }
}
