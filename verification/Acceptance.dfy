/** Exactly which lists of extrinsics each of the two block builders accepts (kate/src/com.rs,
    kate/src/gridgen/core.rs), and exactly where their acceptance differs. */
module Acceptance {
  import opened Results
  import opened Bytes
  import opened Powers2
  import opened Division
  import opened DataLookup
  import opened Sizing
  import opened Grouping
  import opened OrderedMap
  import opened Flattening
  import opened Grid
  import opened BuildersAgree
  import Scale

  /** The cells of the first builder: every encoding of length L takes L / 31 + 1. */
  ghost function FlatCells(groups: seq<Group>): nat
    requires AllEncodable(groups)
  {
    if groups == [] then 0 else |Scale.Encode(groups[0].1)| / 31 + 1 + FlatCells(groups[1..])
  }

  /** The cells of the second builder: as few as hold every encoding. */
  ghost function ChunkCells(groups: seq<Group>): nat
    requires AllEncodable(groups)
  {
    if groups == [] then 0 else CeilDiv(|Scale.Encode(groups[0].1)|, 31) + ChunkCells(groups[1..])
  }

  /** How many groups fill their last chunk. */
  ghost function FullGroups(groups: seq<Group>): nat
    requires AllEncodable(groups)
  {
    if groups == [] then 0
    else (if |Scale.Encode(groups[0].1)| % 31 == 0 then 1 else 0) + FullGroups(groups[1..])
  }

  lemma {:induction false} FlatCellsAre(groups: seq<Group>)
    requires AllEncodable(groups)
    ensures match CellsOfGroups(groups)
            case None => FlatCells(groups) > 0x800_0000
            case Some(parts) => |JoinCells(parts)| == FlatCells(groups)
  {
    hide Scale.Encode, Scale.Encodable, PadToChunks;
    if groups != [] {
      FlatCellsAre(groups[1..]);
      PadToChunksCorrect(Scale.Encode(groups[0].1));
    }
  }

  lemma {:induction false} ChunkCellsAre(groups: seq<Group>)
    requires AllEncodable(groups)
    ensures GridCells(groups).Some? && |JoinCells(GridCells(groups).value)| == ChunkCells(groups)
  {
    hide Scale.Encode, Scale.Encodable, PaddedChunks;
    if groups != [] {
      ChunkCellsAre(groups[1..]);
      PaddedChunksCount(Scale.Encode(groups[0].1));
    }
  }

  /** The first builder takes one more cell for every group that fills its last chunk. */
  lemma {:induction false} OneMoreForFull(groups: seq<Group>)
    requires AllEncodable(groups)
    ensures FlatCells(groups) == ChunkCells(groups) + FullGroups(groups)
  {
    hide Scale.Encode, Scale.Encodable;
    if groups != [] {
      OneMoreForFull(groups[1..]);
      CeilOrOneMore(|Scale.Encode(groups[0].1)|);
    }
  }

  lemma CeilOrOneMore(n: nat)
    ensures n / 31 + 1 == CeilDiv(n, 31) + if n % 31 == 0 then 1 else 0
  {}

  // ---------- Which lists can be encoded ----------

  /** No application has more extrinsics, and no extrinsic has more bytes, than 32 bits can count. */
  ghost predicate Countable(xs: seq<AppExtrinsic>) {
    && (forall id: AppId :: |DataOf(xs, id)| <= 0xffff_ffff)
    && (forall i :: 0 <= i < |xs| ==> |xs[i].data| <= 0xffff_ffff)
  }

  lemma {:induction false} DataOfHolds(xs: seq<AppExtrinsic>, id: AppId, d: seq<byte>)
    ensures d in DataOf(xs, id) <==> exists i :: 0 <= i < |xs| && xs[i] == AppExtrinsic(id, d)
  {
    if xs != [] {
      var front := xs[..|xs| - 1];
      DataOfHolds(front, id, d);
      assert forall i :: 0 <= i < |front| ==> front[i] == xs[i];
    }
  }

  lemma CountableItems(xs: seq<AppExtrinsic>, id: AppId)
    requires Countable(xs)
    ensures Scale.Encodable(DataOf(xs, id))
  {
    var items := DataOf(xs, id);
    forall k | 0 <= k < |items|
      ensures |items[k]| <= 0xffff_ffff
    {
      DataOfHolds(xs, id, items[k]);
    }
  }

  lemma EncodableData(groups: seq<Group>, xs: seq<AppExtrinsic>, id: AppId)
    requires IsGrouping(groups, xs) && AllEncodable(groups)
    ensures |DataOf(xs, id)| <= 0xffff_ffff && forall d :: d in DataOf(xs, id) ==> |d| <= 0xffff_ffff
  {
    assert Lookup(groups, id) == DataOf(xs, id);
    if HasKey(groups, id) {
      var i :| 0 <= i < |groups| && groups[i].0 == id;
      LookupAt(groups, i);
    } else {
      LookupMissing(groups, id);
    }
    hide DataOf, Lookup;
  }

  /** All groups of a list can be encoded if and only if its extrinsics can be counted. */
  lemma EncodableExactly(xs: seq<AppExtrinsic>)
    ensures AllEncodable(Grouped(xs)) <==> Countable(xs)
  {
    var groups := Grouped(xs);
    GroupedIsGrouping(xs);
    hide Grouped, DataOf, Lookup, Scale.Encodable;
    if Countable(xs) {
      forall i | 0 <= i < |groups|
        ensures Scale.Encodable(groups[i].1)
      {
        LookupAt(groups, i);
        assert Lookup(groups, groups[i].0) == DataOf(xs, groups[i].0);
        CountableItems(xs, groups[i].0);
      }
    }
    if AllEncodable(groups) {
      forall id: AppId
        ensures |DataOf(xs, id)| <= 0xffff_ffff
      {
        EncodableData(groups, xs, id);
      }
      forall i | 0 <= i < |xs|
        ensures |xs[i].data| <= 0xffff_ffff
      {
        EncodableData(groups, xs, xs[i].appId);
        DataOfHolds(xs, xs[i].appId, xs[i].data);
      }
    }
  }

  // ---------- Acceptance ----------

  /** `flatten_and_pad_block` accepts a list if and only if its limits are powers of two whose product in bytes fits 32
      bits, every group can be encoded, and the product has room for the cells. */
  lemma FlattenAcceptsExactly(maxRows: u32, maxCols: u32, xs: seq<AppExtrinsic>, filler: nat -> DataChunk)
    ensures Flatten(maxRows, maxCols, xs, filler).Ok? <==>
      && IsPow2(maxRows) && IsPow2(maxCols) && maxRows * maxCols * CHUNK_SIZE <= U32_MAX
      && AllEncodable(Grouped(xs)) && FlatCells(Grouped(xs)) <= maxRows * maxCols
  {
    var groups := Grouped(xs);
    hide Flatten, Grouped, CellsOfGroups, GetBlockDimensions, AllEncodable, FlatCells, IsPow2, JoinCells;
    NotEncodable(groups);
    if AllEncodable(groups) {
      FlatCellsAre(groups);
    }
    match CellsOfGroups(groups)
    case None =>
      FlattenTooBig(xs, maxRows, maxCols, filler);
    case Some(parts) =>
      if 32 * |JoinCells(parts)| > U32_MAX {
        FlattenTooBig(xs, maxRows, maxCols, filler);
      } else {
        FlattenOf(xs, maxRows, maxCols, filler, parts);
        BlockDimensionsSucceed(32 * |JoinCells(parts)|, maxRows, maxCols);
      }
  }

  /** Under the shared limits `from_extrinsics` accepts a list if and only if every group can be encoded and the limits
      have room for the cells. */
  lemma GridAcceptsExactly(maxRows: nat, maxCols: nat, xs: seq<AppExtrinsic>, filler: nat -> DataChunk)
    requires SharedLimits(maxRows, maxCols)
    ensures FromExtrinsics(xs, 4, maxCols, maxRows, filler).Ok? <==>
      AllEncodable(Grouped(xs)) && ChunkCells(Grouped(xs)) <= maxRows * maxCols
  {
    var groups := Grouped(xs);
    GroupingsAgree(xs);
    GroupedIsGrouping(xs);
    OrderOfGrouping(groups, xs);
    LimitsUnfold(maxRows, maxCols);
    hide *;
    NotEncodable(groups);
    if AllEncodable(groups) {
      ChunkCellsAre(groups);
      var parts := GridCells(groups).value;
      if ChunkCells(groups) <= maxRows * maxCols {
        GridFits(maxRows, maxCols, xs, filler, groups, parts);
      } else {
        GridTooBig(xs, maxRows, maxCols, filler, parts);
      }
    } else {
      GridPanics(xs, maxRows, maxCols, filler);
    }
  }

  lemma GridPanics(xs: seq<AppExtrinsic>, maxRows: u64, maxCols: u64, filler: nat -> DataChunk)
    requires GridCells(GroupedByMap(xs)) == None
    ensures FromExtrinsics(xs, 4, maxCols, maxRows, filler) == Err(Panic)
  {
    hide GridCells, GroupedByMap;
  }

  lemma GridFits(maxRows: nat, maxCols: nat, xs: seq<AppExtrinsic>, filler: nat -> DataChunk, groups: seq<Group>,
                 parts: seq<seq<DataChunk>>)
    requires SharedLimits(maxRows, maxCols) && groups == GroupedByMap(xs) && Ordered(groups)
    requires GridCells(groups) == Some(parts) && |JoinCells(parts)| <= maxRows * maxCols
    ensures maxRows <= 0x8000 && maxCols <= 0x8000 && FromExtrinsics(xs, 4, maxCols, maxRows, filler).Ok?
  {
    var n := |JoinCells(parts)|;
    LimitsUnfold(maxRows, maxCols);
    GridCellsCarry(groups, parts);
    LayoutBuilds(groups, parts);
    var l := FromIdAndLen(LayoutOf(groups, parts)).value;
    BlockDimensionsSucceed(32 * n, maxRows, maxCols);
    SizesAgree(n, maxRows, maxCols);
    hide *;
    ShapesDecide(GetBlockDimensions(32 * n, maxRows, maxCols), GetBlockDims(n, 4, maxCols, maxRows));
    GridOfExtrinsics(xs, maxRows, maxCols, filler, groups, parts, l);
  }

  /** Under the shared limits the second builder accepts all that the first one accepts, and it accepts more if and only
      if the cells fit without, but not with, one more for every group that fills its last chunk. */
  lemma AcceptanceDiffersExactly(maxRows: nat, maxCols: nat, xs: seq<AppExtrinsic>, filler: nat -> DataChunk)
    requires SharedLimits(maxRows, maxCols) && maxRows <= U32_MAX && maxCols <= U32_MAX
    ensures var a, b := Flatten(maxRows, maxCols, xs, filler), FromExtrinsics(xs, 4, maxCols, maxRows, filler);
      && (a.Ok? ==> b.Ok?)
      && (a.Err? && b.Ok? <==>
            && AllEncodable(Grouped(xs)) && ChunkCells(Grouped(xs)) <= maxRows * maxCols
            && maxRows * maxCols < ChunkCells(Grouped(xs)) + FullGroups(Grouped(xs)))
  {
    LimitsInBytes(maxRows, maxCols);
    hide *;
    FlattenAcceptsExactly(maxRows, maxCols, xs, filler);
    GridAcceptsExactly(maxRows, maxCols, xs, filler);
    if AllEncodable(Grouped(xs)) {
      OneMoreForFull(Grouped(xs));
    }
  }

  lemma LimitsInBytes(maxRows: nat, maxCols: nat)
    requires SharedLimits(maxRows, maxCols)
    ensures IsPow2(maxRows) && IsPow2(maxCols) && maxRows * maxCols * CHUNK_SIZE <= U32_MAX
  {}

  // ---------- A list that only one builder accepts ----------

  /** One extrinsic of 121 bytes, whose encoding fills four chunks. */
  function FullRowList(): seq<AppExtrinsic> {
    [AppExtrinsic(1, ZeroBytes(121))]
  }

  lemma FullRowCells()
    ensures AllEncodable(Grouped(FullRowList()))
    ensures ChunkCells(Grouped(FullRowList())) == 4 && FullGroups(Grouped(FullRowList())) == 1
  {
    OneItem(ZeroBytes(121));
    var groups := Grouped(FullRowList());
    assert |Scale.Encode(groups[0].1)| == 124;
    hide Scale.Encode, Scale.Encodable, Grouped, FullRowList;
    assert groups[1..] == [];
    assert ChunkCells(groups[1..]) == 0 && FullGroups(groups[1..]) == 0;
  }

  /** With room for four cells the second builder accepts it and the first does not. */
  lemma FullRowDiffers(filler: nat -> DataChunk)
    ensures FromExtrinsics(FullRowList(), 4, 4, 1, filler).Ok? && Flatten(1, 4, FullRowList(), filler).Err?
  {
    assert IsPow2(1) && IsPow2(2) && IsPow2(4);
    FullRowCells();
    assert SharedLimits(1, 4);
    hide *;
    AcceptanceDiffersExactly(1, 4, FullRowList(), filler);
  }
}
