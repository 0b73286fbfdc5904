/** When no group's encoding fills its last chunk, and under the same limits, the two block builders accept the same
    extrinsics and produce the same index, dimensions and cells. */
module BuildersAgree {
  import opened Results
  import opened Bytes
  import opened Powers2
  import opened Division
  import opened DataLookup
  import opened Matrix
  import opened Sizing
  import opened Grouping
  import opened Flattening
  import opened Extend
  import opened BlockRecovery
  import opened Grid
  import opened Sorting
  import Scale

  /** No group that can be encoded fills its last chunk. */
  ghost predicate NoFullLastChunk(groups: seq<Group>) {
    forall i :: 0 <= i < |groups| ==> EndsInChunk(groups[i].1)
  }

  ghost predicate EndsInChunk(items: seq<seq<byte>>) {
    Scale.Encodable(items) ==> |Scale.Encode(items)| % 31 != 0
  }

  ghost predicate AllEncodable(groups: seq<Group>) {
    forall i :: 0 <= i < |groups| ==> Scale.Encodable(groups[i].1)
  }

  /** Powers of two, at least four columns, within 16 bits and within 2^27 cells. */
  ghost predicate SharedLimits(maxRows: nat, maxCols: nat) {
    && IsPow2(maxCols) && 4 <= maxCols <= 0x8000 && IsPow2(maxRows) && maxRows <= 0x8000
    && maxRows * maxCols < 0x800_0000
  }

  /** One group that cannot be encoded makes both builders panic. */
  lemma {:induction false} NotEncodable(groups: seq<Group>)
    ensures GridCells(groups).Some? <==> AllEncodable(groups)
    ensures CellsOfGroups(groups).Some? ==> AllEncodable(groups)
  {
    hide Scale.Encode, Scale.Encodable, PaddedChunks, PadToChunks;
    if groups != [] {
      NotEncodable(groups[1..]);
      assert forall i :: 0 <= i < |groups| - 1 ==> groups[1..][i] == groups[i + 1];
      assert forall i :: 0 < i < |groups| ==> groups[i] == groups[1..][i - 1];
    }
  }

  lemma {:induction false} SameCells(groups: seq<Group>)
    requires NoFullLastChunk(groups) && AllEncodable(groups)
    ensures GridCells(groups).Some?
    ensures CellsOfGroups(groups).Some? ==> CellsOfGroups(groups) == GridCells(groups)
    ensures CellsOfGroups(groups) == None ==> |JoinCells(GridCells(groups).value)| > 0x800_0000
  {
    hide Scale.Encode, Scale.Encodable, PaddedChunks, PadToChunks;
    if groups != [] {
      var enc := Scale.Encode(groups[0].1);
      assert forall i :: 0 <= i < |groups| - 1 ==> groups[1..][i] == groups[i + 1];
      SameCells(groups[1..]);
      PaddedChunksCount(enc);
      PadToChunksCorrect(enc);
      assert EndsInChunk(groups[0].1);
      if |enc| <= MAX_PADDABLE {
        SameChunks(enc);
      } else {
        CeilDivIsLeast(|enc|, 31, 0x800_0000);
      }
    }
  }

  /** With which error the first builder refuses: it panics on what it cannot encode or pad. */
  ghost function FlatRefusal(groups: seq<Group>): Error {
    if CellsOfGroups(groups) == None then Panic else BlockTooBig
  }

  /** With which error the second builder refuses: it panics on what it cannot encode, and reports when the cells
      themselves have no 32-bit offsets. */
  ghost function GridRefusal(groups: seq<Group>): Error {
    match GridCells(groups)
    case None => Panic
    case Some(parts) => if |JoinCells(parts)| > U32_MAX then InvalidDataLookup(OffsetOverflows) else BlockTooBig
  }

  /** The two errors are the same if and only if a group cannot be encoded, or all groups can be padded and the cells of
      the second builder have 32-bit offsets. */
  lemma RefusalsAgreeExactly(groups: seq<Group>)
    ensures FlatRefusal(groups) == GridRefusal(groups) <==>
      (AllEncodable(groups) ==>
         CellsOfGroups(groups).Some? && GridCells(groups).Some? && |JoinCells(GridCells(groups).value)| <= U32_MAX)
  {
    NotEncodable(groups);
    hide CellsOfGroups, GridCells, JoinCells, AllEncodable;
  }

  /** More cells than the limits allow are refused by the grid builder in every case. */
  lemma GridTooBig(xs: seq<AppExtrinsic>, maxRows: nat, maxCols: nat, filler: nat -> DataChunk,
                   parts: seq<seq<DataChunk>>)
    requires SharedLimits(maxRows, maxCols) && GridCells(GroupedByMap(xs)) == Some(parts) && Ordered(GroupedByMap(xs))
    requires |JoinCells(parts)| > maxRows * maxCols
    ensures FromExtrinsics(xs, 4, maxCols, maxRows, filler) == Err(GridRefusal(GroupedByMap(xs)))
  {
    var groups := GroupedByMap(xs);
    var lookup := FromIdAndLen(LayoutOf(groups, parts));
    if lookup.Ok? {
      FromIdAndLenCorrect(LayoutOf(groups, parts));
      TotalOfLayout(groups, parts);
      var n := lookup.value.Len();
      assert maxRows >= 1;
      MulLe(1, maxRows, maxCols);
      WideGrid(n, maxRows, maxCols);
      hide GetBlockDims, GridCells, GroupedByMap, JoinCells, FromIdAndLen, IsPow2;
    } else {
      LayoutOverflows(groups, parts);
      GridCellsCarry(groups, parts);
      if |JoinCells(parts)| <= U32_MAX {
        LayoutBuilds(groups, parts);
      }
      hide GetBlockDims, GridCells, GroupedByMap, JoinCells, FromIdAndLen, IsPow2, LayoutOf, Ordered;
    }
  }

  lemma LayoutOverflows(groups: seq<Group>, parts: seq<seq<DataChunk>>)
    requires GridCells(groups) == Some(parts) && Ordered(groups) && FromIdAndLen(LayoutOf(groups, parts)).Err?
    ensures FromIdAndLen(LayoutOf(groups, parts)) == Err(OffsetOverflows)
  {
    GridCellsCarry(groups, parts);
    var layout := LayoutOf(groups, parts);
    forall i | 0 <= i < |layout|
      ensures layout[i].1 > 0
    {
      assert Carries(groups[i].1, parts[i]);
    }
    IndexFromOverflows(layout, None, 0);
    hide IndexFrom;
  }

  lemma FlattenTooBig(xs: seq<AppExtrinsic>, maxRows: u32, maxCols: u32, filler: nat -> DataChunk)
    requires match CellsOfGroups(Grouped(xs)) case None => true case Some(parts) => 32 * |JoinCells(parts)| > U32_MAX
    ensures Flatten(maxRows, maxCols, xs, filler) == Err(FlatRefusal(Grouped(xs)))
  {
    hide CellsOfGroups, Grouped, JoinCells, GetBlockDimensions;
  }

  /** Both builders in the ordinary case: the cells of the groups fit 32 bits. */
  lemma FlattenOf(xs: seq<AppExtrinsic>, maxRows: u32, maxCols: u32, filler: nat -> DataChunk,
                  parts: seq<seq<DataChunk>>)
    requires CellsOfGroups(Grouped(xs)) == Some(parts) && 32 * |JoinCells(parts)| <= U32_MAX
    ensures Flatten(maxRows, maxCols, xs, filler).Ok? <==>
      GetBlockDimensions(32 * |JoinCells(parts)|, maxRows, maxCols).Ok?
    ensures Flatten(maxRows, maxCols, xs, filler).Err? ==>
      GetBlockDimensions(32 * |JoinCells(parts)|, maxRows, maxCols) == Err(Flatten(maxRows, maxCols, xs, filler).error)
    ensures Flatten(maxRows, maxCols, xs, filler).Ok? ==>
      var f := Flatten(maxRows, maxCols, xs, filler).value;
      && GetBlockDimensions(32 * |JoinCells(parts)|, maxRows, maxCols) == Ok(f.dims)
      && f.layout == LayoutOf(Grouped(xs), parts)
  {
    if GetBlockDimensions(32 * |JoinCells(parts)|, maxRows, maxCols).Ok? {
      BlockDimensionsShape(32 * |JoinCells(parts)|, maxRows, maxCols);
    }
    hide CellsOfGroups, Grouped, JoinCells, GetBlockDimensions, FlatBytes;
  }

  lemma GridOfExtrinsics(xs: seq<AppExtrinsic>, maxRows: u64, maxCols: u64, filler: nat -> DataChunk,
                         groups: seq<Group>, parts: seq<seq<DataChunk>>, l: DataLookup)
    requires GroupedByMap(xs) == groups && GridCells(groups) == Some(parts)
    requires FromIdAndLen(LayoutOf(groups, parts)) == Ok(l)
    ensures FromExtrinsics(xs, 4, maxCols, maxRows, filler)
      == match GetBlockDims(l.Len(), 4, maxCols, maxRows)
         case Err(e) => Err(e)
         case Ok(dims) => Ok(EvaluationGrid(l, dims, GridColumns(parts, filler, dims)))
  {
    hide GroupedByMap, GridCells, FromIdAndLen, GetBlockDims, GridColumns;
  }

  /** The cells that fill the grid are those of the flat block. */
  lemma SameBlock(f: Flattened, maxRows: u32, maxCols: u32, groups: seq<Group>, parts: seq<seq<DataChunk>>,
                  filler: nat -> DataChunk)
    requires MadeOf(f, maxRows, maxCols, groups, parts, filler)
    ensures f.data == FlatBytes(GridOf(JoinCells(parts), filler, f.dims.rows * f.dims.cols))
  {
    var cells := BlockIsFull(f, maxRows, maxCols, groups, parts, filler);
    hide FlatBytes, JoinCells, CellsOfGroups, GetBlockDimensions;
    assert GridOf(JoinCells(parts), filler, |cells|) == cells;
  }

  /** The same index, dimensions and scalars in the same places. */
  ghost predicate SameBlockAndGrid(f: Flattened, g: EvaluationGrid) {
    && FromIdAndLen(f.layout) == Ok(g.lookup)
    && f.dims.rows == g.dims.rows && f.dims.cols == g.dims.cols
    && ToScalars(ChunksExact(f.data)).Some?
    && |ToScalars(ChunksExact(f.data)).value| == g.dims.rows * g.dims.cols
    && g.columns == ColumnsOf(ToScalars(ChunksExact(f.data)).value, g.dims)
  }

  /** Both refuse, each with its own error. */
  ghost predicate RefusedAlike(groups: seq<Group>, e: Error, f: Error) {
    e == FlatRefusal(groups) && f == GridRefusal(groups)
  }

  ghost predicate SameResult(groups: seq<Group>, a: Result<Flattened, Error>, b: Result<EvaluationGrid, Error>) {
    match (a, b)
    case (Ok(f), Ok(g)) => SameBlockAndGrid(f, g)
    case (Err(e), Err(f)) => RefusedAlike(groups, e, f)
    case _ => false
  }

  /** The two builders agree: same acceptance, same refusals, same index, same dimensions, same scalars in the same
      places. */
  lemma BuildersAgree(maxRows: nat, maxCols: nat, xs: seq<AppExtrinsic>, filler: nat -> DataChunk)
    requires SharedLimits(maxRows, maxCols) && NoFullLastChunk(Grouped(xs))
    ensures SameResult(Grouped(xs), Flatten(maxRows, maxCols, xs, filler),
                       FromExtrinsics(xs, 4, maxCols, maxRows, filler))
  {
    hide *;
    var groups := Grouped(xs);
    GroupingsAgree(xs);
    GroupedIsGrouping(xs);
    OrderOfGrouping(groups, xs);
    LimitsUnfold(maxRows, maxCols);
    NotEncodable(groups);
    if AllEncodable(groups) {
      SameCells(groups);
      var gridParts := GridCells(groups).value;
      if CellsOfGroups(groups) == None || 32 * |JoinCells(gridParts)| > 0xffff_ffff {
        FlattenTooBigToo(xs, maxRows, maxCols, filler);
        GridTooBig(xs, maxRows, maxCols, filler, gridParts);
        BothRefuse(groups, Flatten(maxRows, maxCols, xs, filler), FromExtrinsics(xs, 4, maxCols, maxRows, filler));
      } else {
        AgreeWhenSmall(maxRows, maxCols, xs, filler, groups, gridParts);
      }
    } else {
      BothPanic(maxRows, maxCols, xs, filler);
    }
  }

  lemma BothPanic(maxRows: u32, maxCols: u32, xs: seq<AppExtrinsic>, filler: nat -> DataChunk)
    requires !AllEncodable(Grouped(xs)) && GroupedByMap(xs) == Grouped(xs)
    ensures SameResult(Grouped(xs), Flatten(maxRows, maxCols, xs, filler),
                       FromExtrinsics(xs, 4, maxCols, maxRows, filler))
  {
    NotEncodable(Grouped(xs));
    hide AllEncodable, Grouped, GroupedByMap, CellsOfGroups, GridCells, JoinCells, GetBlockDimensions, GetBlockDims;
  }

  lemma BothRefuse(groups: seq<Group>, a: Result<Flattened, Error>, b: Result<EvaluationGrid, Error>)
    requires a == Err(FlatRefusal(groups)) && b == Err(GridRefusal(groups))
    ensures SameResult(groups, a, b)
  {
    hide FlatRefusal, GridRefusal;
  }

  lemma SmallRefusals(groups: seq<Group>, parts: seq<seq<DataChunk>>)
    requires CellsOfGroups(groups) == GridCells(groups) == Some(parts) && 32 * |JoinCells(parts)| <= 0xffff_ffff
    ensures FlatRefusal(groups) == GridRefusal(groups) == BlockTooBig
  {
    hide CellsOfGroups, GridCells, JoinCells;
  }

  lemma LimitsUnfold(maxRows: nat, maxCols: nat)
    requires SharedLimits(maxRows, maxCols)
    ensures maxRows * maxCols < 0x800_0000 && maxRows <= 0x8000 && maxCols <= 0x8000
  {}

  lemma FlattenTooBigToo(xs: seq<AppExtrinsic>, maxRows: u32, maxCols: u32, filler: nat -> DataChunk)
    requires CellsOfGroups(Grouped(xs)).Some? ==> 32 * |JoinCells(CellsOfGroups(Grouped(xs)).value)| > 0xffff_ffff
    ensures Flatten(maxRows, maxCols, xs, filler) == Err(FlatRefusal(Grouped(xs)))
  {
    hide CellsOfGroups, Grouped, JoinCells, Flatten, FlatRefusal;
    FlattenTooBig(xs, maxRows, maxCols, filler);
  }

  lemma AgreeWhenSmall(maxRows: nat, maxCols: nat, xs: seq<AppExtrinsic>, filler: nat -> DataChunk,
                       groups: seq<Group>, parts: seq<seq<DataChunk>>)
    requires SharedLimits(maxRows, maxCols) && groups == Grouped(xs) == GroupedByMap(xs) && IsGrouping(groups, xs)
    requires AllEncodable(groups) && Ordered(groups)
    requires CellsOfGroups(groups) == GridCells(groups) == Some(parts) && 32 * |JoinCells(parts)| <= 0xffff_ffff
    ensures maxRows <= 0x8000 && maxCols <= 0x8000
    ensures SameResult(groups, Flatten(maxRows, maxCols, xs, filler), FromExtrinsics(xs, 4, maxCols, maxRows, filler))
  {
    var n := |JoinCells(parts)|;
    SizesAgree(n, maxRows, maxCols);
    CellsOfGroupsCarry(groups, parts);
    LayoutBuilds(groups, parts);
    var l := FromIdAndLen(LayoutOf(groups, parts)).value;
    hide *;
    FlattenOf(xs, maxRows, maxCols, filler, parts);
    GridOfExtrinsics(xs, maxRows, maxCols, filler, groups, parts, l);
    var a, b := Flatten(maxRows, maxCols, xs, filler), FromExtrinsics(xs, 4, maxCols, maxRows, filler);
    ShapesDecide(GetBlockDimensions(32 * n, maxRows, maxCols), GetBlockDims(n, 4, maxCols, maxRows));
    if a.Ok? {
      var made := FlattenUnfolds(maxRows, maxCols, xs, filler);
      MadeOfUnfolds(a.value, maxRows, maxCols, groups, made, filler);
      SameBlock(a.value, maxRows, maxCols, groups, parts, filler);
      BothSucceed(groups, a.value, b.value, GridOf(JoinCells(parts), filler, b.value.dims.rows * b.value.dims.cols));
    } else {
      SmallRefusals(groups, parts);
      BothRefuse(groups, a, b);
    }
  }

  lemma MadeOfUnfolds(f: Flattened, maxRows: u32, maxCols: u32, groups: seq<Group>, parts: seq<seq<DataChunk>>,
                      filler: nat -> DataChunk)
    requires MadeOf(f, maxRows, maxCols, groups, parts, filler)
    ensures CellsOfGroups(groups) == Some(parts)
  {
    hide CellsOfGroups, FlatBytes, JoinCells, GetBlockDimensions;
  }

  lemma ShapesDecide(a: Result<BlockDimensions, Error>, b: Result<Dimensions, Error>)
    requires SameShape(a, b)
    ensures a.Ok? <==> b.Ok?
    ensures a.Ok? ==> a.value.rows == b.value.rows && a.value.cols == b.value.cols
    ensures a.Err? ==> a.error == b.error == BlockTooBig
  {}

  lemma BothSucceed(groups: seq<Group>, f: Flattened, g: EvaluationGrid, cells: seq<DataChunk>)
    requires FromIdAndLen(f.layout) == Ok(g.lookup) && f.dims.rows == g.dims.rows && f.dims.cols == g.dims.cols
    requires f.data == FlatBytes(cells) && |cells| == g.dims.rows * g.dims.cols
    requires g.columns == ColumnsOf(ScalarsOf(cells), g.dims)
    ensures SameResult(groups, Ok(f), Ok(g))
  {
    hide FromIdAndLen, FlatBytes, ColumnsOf, ScalarsOf, ToScalars, ChunksExact;
    FlatBytesAreScalars(cells);
  }

  // ---------- Exactly when the builders agree ----------

  lemma {:induction false} CountsOfGroups(groups: seq<Group>, parts: seq<seq<DataChunk>>,
                                          gridParts: seq<seq<DataChunk>>, i: nat)
    requires CellsOfGroups(groups) == Some(parts) && GridCells(groups) == Some(gridParts) && i < |groups|
    ensures Scale.Encodable(groups[i].1)
    ensures |parts[i]| == |gridParts[i]| <==> |Scale.Encode(groups[i].1)| % 31 != 0
  {
    hide Scale.Encode, Scale.Encodable, PaddedChunks, PadToChunks;
    if i == 0 {
      CountsDiffer(Scale.Encode(groups[0].1));
    } else {
      CountsOfGroups(groups[1..], parts[1..], gridParts[1..], i - 1);
    }
  }

  lemma CountsDiffer(enc: seq<byte>)
    requires PadToChunks(enc).Some?
    ensures |PadToChunks(enc).value| == |PaddedChunks(enc)| <==> |enc| % 31 != 0
  {
    PadToChunksCorrect(enc);
    PaddedChunksCount(enc);
    hide PadToChunks, PaddedChunks;
    var n := |enc| / 31;
    CeilDivIsLeast(|enc|, 31, n);
    CeilDivIsLeast(|enc|, 31, n + 1);
  }

  /** The lengths that an index was built from can be read off the index. */
  lemma LayoutsAreDetermined(a: seq<(AppId, nat)>, b: seq<(AppId, nat)>)
    requires FromIdAndLen(a).Ok? && FromIdAndLen(a) == FromIdAndLen(b)
    ensures |a| == |b| && forall i :: 0 <= i < |a| ==> a[i].1 == b[i].1
  {
    FromIdAndLenCorrect(a);
    FromIdAndLenCorrect(b);
    hide FromIdAndLen, Tiles, Total, Buildable;
  }

  lemma GridLookupUnfolds(xs: seq<AppExtrinsic>, minWidth: u64, maxWidth: u64, maxHeight: u64, filler: nat -> DataChunk)
    returns (parts: seq<seq<DataChunk>>)
    requires FromExtrinsics(xs, minWidth, maxWidth, maxHeight, filler).Ok?
    ensures GridCells(GroupedByMap(xs)) == Some(parts)
    ensures FromIdAndLen(LayoutOf(GroupedByMap(xs), parts))
      == Ok(FromExtrinsics(xs, minWidth, maxWidth, maxHeight, filler).value.lookup)
  {
    hide GroupedByMap, GridCells, FromIdAndLen, GetBlockDims, JoinCells, ScalarsOf, ColumnsOf, GridOf;
    parts := GridCells(GroupedByMap(xs)).value;
  }

  /** Whenever both builders accept a list, whatever their limits and fillers, their indexes are the same if and only if
      no group fills its last chunk. */
  lemma LookupsAgreeExactly(maxRows: u32, maxCols: u32, flatFiller: nat -> DataChunk, minWidth: u64, maxWidth: u64,
                            maxHeight: u64, gridFiller: nat -> DataChunk, xs: seq<AppExtrinsic>)
    requires Flatten(maxRows, maxCols, xs, flatFiller).Ok?
    requires FromExtrinsics(xs, minWidth, maxWidth, maxHeight, gridFiller).Ok?
    ensures var f, g := Flatten(maxRows, maxCols, xs, flatFiller).value,
                        FromExtrinsics(xs, minWidth, maxWidth, maxHeight, gridFiller).value;
      FromIdAndLen(f.layout) == Ok(g.lookup) <==> NoFullLastChunk(Grouped(xs))
  {
    GroupingsAgree(xs);
    var groups := Grouped(xs);
    var parts := FlattenUnfolds(maxRows, maxCols, xs, flatFiller);
    var f := Flatten(maxRows, maxCols, xs, flatFiller).value;
    MadeOfUnfolds(f, maxRows, maxCols, groups, parts, flatFiller);
    var gridParts := GridLookupUnfolds(xs, minWidth, maxWidth, maxHeight, gridFiller);
    hide Flatten, FromExtrinsics, Grouped, GroupedByMap, MadeOf;
    LayoutsAgreeExactly(groups, parts, gridParts);
  }

  lemma LayoutsAgreeExactly(groups: seq<Group>, parts: seq<seq<DataChunk>>, gridParts: seq<seq<DataChunk>>)
    requires CellsOfGroups(groups) == Some(parts) && GridCells(groups) == Some(gridParts)
    requires FromIdAndLen(LayoutOf(groups, gridParts)).Ok?
    ensures FromIdAndLen(LayoutOf(groups, parts)) == FromIdAndLen(LayoutOf(groups, gridParts)) <==>
      NoFullLastChunk(groups)
  {
    var a, b := LayoutOf(groups, parts), LayoutOf(groups, gridParts);
    hide CellsOfGroups, GridCells, FromIdAndLen, EndsInChunk;
    forall i | 0 <= i < |groups|
      ensures a[i].1 == b[i].1 <==> EndsInChunk(groups[i].1)
    {
      CountsOfGroups(groups, parts, gridParts, i);
      EndsUnfolds(groups[i].1);
    }
    if FromIdAndLen(a) == FromIdAndLen(b) {
      LayoutsAreDetermined(a, b);
    }
    if NoFullLastChunk(groups) {
      assert a == b;
    }
  }

  lemma EndsUnfolds(items: seq<seq<byte>>)
    requires Scale.Encodable(items)
    ensures EndsInChunk(items) <==> |Scale.Encode(items)| % 31 != 0
  {
    hide Scale.Encode, Scale.Encodable;
  }

  /** Under the same limits and with the same filler, two accepted results are the same if and only if no group fills
      its last chunk. */
  lemma BuildersAgreeExactly(maxRows: nat, maxCols: nat, xs: seq<AppExtrinsic>, filler: nat -> DataChunk)
    requires SharedLimits(maxRows, maxCols) && maxRows <= U32_MAX && maxCols <= U32_MAX
    requires Flatten(maxRows, maxCols, xs, filler).Ok? && FromExtrinsics(xs, 4, maxCols, maxRows, filler).Ok?
    ensures var f := Flatten(maxRows, maxCols, xs, filler).value;
      var g := FromExtrinsics(xs, 4, maxCols, maxRows, filler).value;
      SameBlockAndGrid(f, g) <==> NoFullLastChunk(Grouped(xs))
  {
    LookupsAgreeExactly(maxRows, maxCols, filler, 4, maxCols, maxRows, filler, xs);
    hide Flatten, FromExtrinsics, NoFullLastChunk, SharedLimits, Grouped, FromIdAndLen, ToScalars, ChunksExact,
      ColumnsOf;
    if NoFullLastChunk(Grouped(xs)) {
      BuildersAgree(maxRows, maxCols, xs, filler);
    }
  }

  // ---------- A list on which they differ ----------

  /** One extrinsic of 29 bytes, whose encoding fills a chunk. */
  function FullChunkList(): seq<AppExtrinsic> {
    [AppExtrinsic(1, ZeroBytes(29))]
  }

  /** A single extrinsic makes a single group, whose encoding is the item behind its two lengths. */
  lemma OneItem(d: seq<byte>)
    requires |d| <= U32_MAX
    ensures Grouped([AppExtrinsic(1, d)]) == [(1, [d])] && Scale.Encodable([d])
    ensures |Scale.Encode([d])| == 1 + |Scale.CompactEncode(|d|)| + |d|
  {
    var x := AppExtrinsic(1, d);
    assert Sort(LowerId, [x]) == [x];
    assert GroupConsecutive([x]) == AddToLast(GroupConsecutive([x][..0]), x);
    assert Scale.EncodeItems([d]) == Scale.EncodeBytes(d) + Scale.EncodeItems([d][1..]);
    assert Scale.EncodeItems([d][1..]) == [];
  }

  lemma FullChunkCells()
    ensures var groups := Grouped(FullChunkList());
      && CellsOfGroups(groups).Some? && |CellsOfGroups(groups).value| == 1 && |CellsOfGroups(groups).value[0]| == 2
      && GridCells(groups).Some? && |GridCells(groups).value| == 1 && |GridCells(groups).value[0]| == 1
  {
    OneItem(ZeroBytes(29));
    var items, enc := [ZeroBytes(29)], Scale.Encode([ZeroBytes(29)]);
    PadToChunksCorrect(enc);
    PaddedChunksCount(enc);
    hide Scale.Encode, Scale.Encodable, PadToChunks, PaddedChunks, Grouped, FullChunkList;
    var groups: seq<Group> := [(1, items)];
    assert CellsOfGroup(items) == PadToChunks(enc);
    assert groups[1..] == [];
    assert CellsOfGroups(groups[1..]) == Some([]) && GridCells(groups[1..]) == Some([]);
  }

  lemma OneGroup(part: seq<DataChunk>, id: AppId)
    requires 0 < |part| <= U32_MAX
    ensures JoinCells([part]) == part
    ensures FromIdAndLen([(id, |part|)]) == Ok(DataLookup([(id, Range(0, |part|))]))
  {
    assert [part][1..] == [] && part + [] == part;
    var entries: seq<(AppId, nat)> := [(id, |part|)];
    assert entries[1..] == [] && IndexFrom([], Some(id), |part|) == Ok([]);
    var index: seq<Entry> := [(id, Range(0, |part|))];
    assert index + [] == index;
    assert IndexFrom(entries, None, 0) == Ok(index);
  }

  lemma FullChunkLayouts() returns (parts: seq<seq<DataChunk>>, gridParts: seq<seq<DataChunk>>)
    ensures var groups := Grouped(FullChunkList());
      && GroupedByMap(FullChunkList()) == groups && |groups| == |parts| == |gridParts|
      && CellsOfGroups(groups) == Some(parts) && GridCells(groups) == Some(gridParts) && |JoinCells(parts)| == 2
      && FromIdAndLen(LayoutOf(groups, parts)) == Ok(DataLookup([(1, Range(0, 2))]))
      && FromIdAndLen(LayoutOf(groups, gridParts)) == Ok(DataLookup([(1, Range(0, 1))]))
  {
    FullChunkCells();
    OneItem(ZeroBytes(29));
    GroupingsAgree(FullChunkList());
    hide CellsOfGroups, GridCells, GroupedByMap, JoinCells, FromIdAndLen;
    var groups := Grouped(FullChunkList());
    parts, gridParts := CellsOfGroups(groups).value, GridCells(groups).value;
    assert parts == [parts[0]] && gridParts == [gridParts[0]];
    OneGroup(parts[0], 1);
    OneGroup(gridParts[0], 1);
    assert LayoutOf(groups, parts) == [(1, 2)] && LayoutOf(groups, gridParts) == [(1, 1)];
  }

  /** On that list, both accepting, one index has two cells and the other has one. */
  lemma FullChunkDiffers(filler: nat -> DataChunk)
    ensures var a, b := Flatten(16, 16, FullChunkList(), filler), FromExtrinsics(FullChunkList(), 4, 16, 16, filler);
      && a.Ok? && b.Ok? && FromIdAndLen(a.value.layout).Ok?
      && FromIdAndLen(a.value.layout).value.Len() == 2 && b.value.lookup.Len() == 1
  {
    var parts, gridParts := FullChunkLayouts();
    assert 32 * |JoinCells(parts)| <= U32_MAX;
    hide *;
    SmallLimits();
    FlattenOf(FullChunkList(), 16, 16, filler, parts);
    var l := DataLookup([(1, Range(0, 1))]);
    GridOfExtrinsics(FullChunkList(), 16, 16, filler, Grouped(FullChunkList()), gridParts, l);
    SmallLookups();
  }

  lemma SmallLimits()
    ensures GetBlockDimensions(64, 16, 16).Ok? && GetBlockDims(1, 4, 16, 16).Ok?
  {
    assert IsPow2(2) && IsPow2(4) && IsPow2(8) && IsPow2(16);
    BlockDimensionsSucceed(64, 16, 16);
  }

  lemma SmallLookups()
    ensures DataLookup([(1, Range(0, 1))]).Len() == 1 && DataLookup([(1, Range(0, 2))]).Len() == 2
  {}
}
