/** The second block builder, `EvaluationGrid::from_extrinsics` (kate/src/gridgen/core.rs), and its agreement with
    `flatten_and_pad_block` (kate/src/com.rs). Grids are held as their columns. */
module Grid {
  import opened Results
  import opened Bytes
  import opened Field
  import opened Division
  import opened DataLookup
  import opened Matrix
  import opened Sizing
  import opened Grouping
  import opened Flattening
  import opened Extend
  import opened BlockRecovery
  import Scale

  datatype EvaluationGrid = EvaluationGrid(lookup: DataLookup, dims: Dimensions, columns: seq<seq<Scalar>>)

  /** `chunks(31)` with every chunk padded by zeros: the last one may be short, and nothing is added to full ones. */
  function PaddedChunks(data: seq<byte>): seq<DataChunk> {
    if data == [] then []
    else if |data| <= 31 then [data + ZeroBytes(31 - |data|)]
    else [data[..31]] + PaddedChunks(data[31..])
  }

  /** `pad_to_bls_scalar`: at most 31 bytes, copied into a zeroed buffer of 32. */
  function PadToBlsScalar(bytes: seq<byte>): Result<Scalar, Error> {
    if |bytes| > 31 then Err(InvalidChunkLength) else
    match ScalarFromBytes(bytes + ZeroBytes(32 - |bytes|))
    case None => Err(MultiproofError)
    case Some(s) => Ok(s)
  }

  method PadToScalar(bytes: seq<byte>) returns (r: Result<Scalar, Error>)
    ensures r == PadToBlsScalar(bytes)
  {
    hide ScalarFromBytes;
    if |bytes| > 31 { return Err(InvalidChunkLength); }
    var buf := new byte[32](_ => 0);
    for i := 0 to |bytes|
      invariant buf[..i] == bytes[..i]
      invariant forall k :: i <= k < 32 ==> buf[k] == 0
    {
      buf[i] := bytes[i];
    }
    assert buf[..] == bytes + ZeroBytes(32 - |bytes|);
    var scalar := ScalarFromBytes(buf[..]);
    r := if scalar == None then Err(MultiproofError) else Ok(scalar.value);
  }

  /** Up to 31 bytes always convert, to the scalar of the padded chunk. */
  lemma PadToBlsScalarSucceeds(bytes: seq<byte>)
    requires |bytes| <= 31
    ensures PadToBlsScalar(bytes) == Ok(ScalarOf(bytes + ZeroBytes(31 - |bytes|)))
  {
    var c: DataChunk := bytes + ZeroBytes(31 - |bytes|);
    assert PadToChunk(c) == bytes + ZeroBytes(32 - |bytes|);
    ScalarOfCell(c);
  }

  /** The cells of every group; the codec panics on an overlong list. */
  function GridCells(groups: seq<Group>): (r: Option<seq<seq<DataChunk>>>)
    ensures r.Some? ==> |r.value| == |groups|
  {
    if groups == [] then Some([])
    else if !Scale.Encodable(groups[0].1) then None
    else
      var rest :- GridCells(groups[1..]);
      Some([PaddedChunks(Scale.Encode(groups[0].1))] + rest)
  }

  /** The cells of the groups, then filler, as many as the grid takes. */
  function GridOf(cells: seq<DataChunk>, filler: nat -> DataChunk, n: nat): (c: seq<DataChunk>)
    ensures |c| == n
  {
    if |cells| >= n then cells[..n] else cells + FillerFrom(filler, n - |cells|)
  }

  function ColumnsOf(scalars: seq<Scalar>, dims: Dimensions): seq<seq<Scalar>>
    requires |scalars| == dims.rows * dims.cols
  {
    seq(dims.cols, c requires 0 <= c < dims.cols => ColumnOf(scalars, dims.rows, dims.cols, c))
  }

  /** The columns of a grid: the cells of the groups, then filler, row by row. */
  function GridColumns(parts: seq<seq<DataChunk>>, filler: nat -> DataChunk, dims: Dimensions): seq<seq<Scalar>> {
    ColumnsOf(ScalarsOf(GridOf(JoinCells(parts), filler, dims.Size())), dims)
  }

  /** All of `from_extrinsics`. */
  function FromExtrinsics(xs: seq<AppExtrinsic>, minWidth: u64, maxWidth: u64, maxHeight: u64, filler: nat -> DataChunk)
    : Result<EvaluationGrid, Error>
  {
    var groups := GroupedByMap(xs);
    match GridCells(groups)
    case None => Err(Panic)
    case Some(parts) =>
      match FromIdAndLen(LayoutOf(groups, parts))
      case Err(e) => Err(InvalidDataLookup(e))
      case Ok(lookup) =>
        var dims :- GetBlockDims(lookup.Len(), minWidth, maxWidth, maxHeight);
        Ok(EvaluationGrid(lookup, dims, GridColumns(parts, filler, dims)))
  }

  // ---------- The program itself ----------

  lemma ScalarsOfConcat(a: seq<DataChunk>, b: seq<DataChunk>)
    ensures ScalarsOf(a + b) == ScalarsOf(a) + ScalarsOf(b)
  {
    hide ScalarOf;
  }

  lemma ScalarsOfOne(c: DataChunk)
    ensures ScalarsOf([c]) == [ScalarOf(c)]
  {
    hide ScalarOf;
  }

  function ChunkLength(data: seq<byte>): (n: nat)
    ensures n <= |data| && n <= 31 && (data != [] ==> n > 0)
  {
    if |data| <= 31 then |data| else 31
  }

  lemma PaddedChunksStep(data: seq<byte>, n: nat, c: DataChunk)
    requires data != [] && n == ChunkLength(data) && c == data[..n] + ZeroBytes(31 - n)
    ensures PaddedChunks(data) == [c] + PaddedChunks(data[n..])
  {
    if |data| > 31 {
      assert c == data[..31];
    } else {
      assert data[..n] == data && data[n..] == [];
      assert PaddedChunks(data[n..]) == [];
      assert [c] + [] == [c];
    }
  }

  /** `chunks(31)` of an encoding, each converted; no conversion fails. */
  method ChunkScalars(enc: seq<byte>) returns (r: Result<seq<Scalar>, Error>)
    ensures r == Ok(ScalarsOf(PaddedChunks(enc)))
  {
    hide ScalarsOf, PaddedChunks, PadToBlsScalar;
    var scalars: seq<Scalar> := [];
    var rest := enc;
    ghost var all := ScalarsOf(PaddedChunks(enc));
    while rest != []
      invariant all == scalars + ScalarsOf(PaddedChunks(rest))
      decreases |rest|
    {
      var n := ChunkLength(rest);
      PadToBlsScalarSucceeds(rest[..n]);
      var converted := PadToScalar(rest[..n]);
      match converted
      case Err(e) =>
        return Err(e);
      case Ok(scalar) =>
        ChunkStep(scalars, rest, n, scalar);
        scalars := scalars + [scalar];
        rest := rest[n..];
    }
    NoChunksLeft(scalars);
    r := Ok(scalars);
  }

  lemma ChunkStep(scalars: seq<Scalar>, rest: seq<byte>, n: nat, scalar: Scalar)
    requires rest != [] && n == ChunkLength(rest) && PadToBlsScalar(rest[..n]) == Ok(scalar)
    ensures scalars + ScalarsOf(PaddedChunks(rest)) == (scalars + [scalar]) + ScalarsOf(PaddedChunks(rest[n..]))
  {
    var c: DataChunk := rest[..n] + ZeroBytes(31 - n);
    hide *;
    PaddedChunksStep(rest, n, c);
    PadToBlsScalarSucceeds(rest[..n]);
    ScalarsOfConcat([c], PaddedChunks(rest[n..]));
    ScalarsOfOne(c);
  }

  lemma NoChunksLeft(scalars: seq<Scalar>)
    ensures scalars + ScalarsOf(PaddedChunks([])) == scalars
  {}

  type AppScalars = (AppId, seq<Scalar>)

  function ScalarsOfParts(groups: seq<Group>, parts: seq<seq<DataChunk>>): (s: seq<AppScalars>)
    requires |groups| == |parts|
    ensures |s| == |groups|
  {
    seq(|groups|, i requires 0 <= i < |groups| => (groups[i].0, ScalarsOf(parts[i])))
  }

  /** The `map` over the groups: encode, chunk, convert. */
  method ScalarsByApp(groups: seq<Group>) returns (r: Result<seq<AppScalars>, Error>)
    ensures r == match GridCells(groups) case None => Err(Panic) case Some(parts) => Ok(ScalarsOfParts(groups, parts))
  {
    hide PaddedChunks, ScalarsOf, Scale.Encode, Scale.Encodable;
    var done: seq<AppScalars> := [];
    ghost var parts: seq<seq<DataChunk>> := [];
    assert groups[0..] == groups;
    PrependNothing(GridCells(groups));
    for i := 0 to |groups|
      invariant |done| == |parts| == i
      invariant forall k :: 0 <= k < i ==> done[k] == (groups[k].0, ScalarsOf(parts[k]))
      invariant GridCells(groups) == Prepended(parts, GridCells(groups[i..]))
    {
      assert groups[i..][0] == groups[i] && groups[i..][1..] == groups[i + 1..];
      if !Scale.Encodable(groups[i].1) {
        return Err(Panic);
      }
      ghost var cells := PaddedChunks(Scale.Encode(groups[i].1));
      var converted := ChunkScalars(Scale.Encode(groups[i].1));
      match converted
      case Err(e) =>
        return Err(e);
      case Ok(scalars) =>
        PrependStep(parts, cells, GridCells(groups[i + 1..]));
        parts := parts + [cells];
        done := done + [(groups[i].0, scalars)];
    }
    assert groups[|groups|..] == [] && parts + [] == parts;
    assert done == ScalarsOfParts(groups, parts);
    r := Ok(done);
  }

  ghost function Prepended(parts: seq<seq<DataChunk>>, rest: Option<seq<seq<DataChunk>>>): Option<seq<seq<DataChunk>>> {
    if rest.Some? then Some(parts + rest.value) else None
  }

  lemma PrependNothing(rest: Option<seq<seq<DataChunk>>>)
    ensures Prepended([], rest) == rest
  {
    assert rest.Some? ==> [] + rest.value == rest.value;
  }

  lemma PrependStep(parts: seq<seq<DataChunk>>, cells: seq<DataChunk>, rest: Option<seq<seq<DataChunk>>>)
    ensures Prepended(parts, if rest.Some? then Some([cells] + rest.value) else None)
      == Prepended(parts + [cells], rest)
  {
    assert rest.Some? ==> parts + ([cells] + rest.value) == (parts + [cells]) + rest.value;
  }

  method LengthsOf(scalars: seq<AppScalars>) returns (lens: seq<(AppId, nat)>)
    ensures lens == seq(|scalars|, i requires 0 <= i < |scalars| => (scalars[i].0, |scalars[i].1|))
  {
    lens := [];
    for i := 0 to |scalars|
      invariant |lens| == i && forall k :: 0 <= k < i ==> lens[k] == (scalars[k].0, |scalars[k].1|)
    {
      lens := lens + [(scalars[i].0, |scalars[i].1|)];
    }
  }

  /** The scalars of all groups, chained with converted filler, as many as the grid takes. */
  method FillGrid(groups: seq<Group>, ghost parts: seq<seq<DataChunk>>, scalars: seq<AppScalars>,
                  filler: nat -> DataChunk, n: nat)
    returns (grid: seq<Scalar>)
    requires |groups| == |parts| && scalars == ScalarsOfParts(groups, parts)
    ensures grid == ScalarsOf(GridOf(JoinCells(parts), filler, n))
  {
    hide ScalarsOf, PadToBlsScalar;
    ghost var used := JoinCells(parts);
    var data: seq<Scalar> := [];
    NoCells();
    assert parts[..0] == [];
    for i := 0 to |scalars|
      invariant data == ScalarsOf(JoinCells(parts[..i]))
    {
      assert parts[..i + 1] == parts[..i] + [parts[i]];
      JoinCellsConcat(parts[..i], [parts[i]]);
      assert JoinCells([parts[i]]) == parts[i];
      ScalarsOfConcat(JoinCells(parts[..i]), parts[i]);
      data := data + scalars[i].1;
    }
    assert parts[..|parts|] == parts;
    if |data| >= n {
      ScalarsOfPrefix(used, n);
      return data[..n];
    }
    grid := data;
    FillerStart(used, filler);
    for k := 0 to n - |data|
      invariant grid == ScalarsOf(used + FillerFrom(filler, k))
    {
      var scalar := PadToScalar(filler(k));
      FillerStep(used, filler, k);
      grid := grid + [scalar.value];
    }
  }

  lemma NoCells()
    ensures JoinCells([]) == [] && ScalarsOf([]) == []
  {}

  lemma ScalarsOfPrefix(cells: seq<DataChunk>, n: nat)
    requires n <= |cells|
    ensures ScalarsOf(cells)[..n] == ScalarsOf(cells[..n])
  {
    hide ScalarOf;
  }

  lemma FillerStart(used: seq<DataChunk>, filler: nat -> DataChunk)
    ensures used + FillerFrom(filler, 0) == used
  {}

  lemma FillerStep(used: seq<DataChunk>, filler: nat -> DataChunk, k: nat)
    ensures PadToBlsScalar(filler(k)).Ok?
    ensures ScalarsOf(used + FillerFrom(filler, k + 1))
      == ScalarsOf(used + FillerFrom(filler, k)) + [PadToBlsScalar(filler(k)).value]
  {
    hide ScalarOf, PadToBlsScalar;
    PadToBlsScalarSucceeds(filler(k));
    assert filler(k) + ZeroBytes(0) == filler(k);
    assert used + FillerFrom(filler, k + 1) == (used + FillerFrom(filler, k)) + [filler(k)];
    ScalarsOfConcat(used + FillerFrom(filler, k), [filler(k)]);
    ScalarsOfOne(filler(k));
  }

  /** `from_extrinsics`. */
  method BuildGrid(xs: seq<AppExtrinsic>, minWidth: u64, maxWidth: u64, maxHeight: u64, filler: nat -> DataChunk)
    returns (r: Result<EvaluationGrid, Error>)
    ensures r == FromExtrinsics(xs, minWidth, maxWidth, maxHeight, filler)
  {
    hide GridCells, GroupedByMap, FromIdAndLen, GetBlockDims, JoinCells, ScalarsOf, ColumnsOf, GridOf;
    var groups := FoldIntoMap(xs);
    var scalars :- ScalarsByApp(groups);
    ghost var parts := GridCells(groups).value;
    var lens := LengthsOf(scalars);
    LengthsAreLayout(groups, parts, lens);
    var lookup := FromIdAndLenIter(lens);
    if lookup.Err? { return Err(InvalidDataLookup(lookup.error)); }
    var dims :- GetBlockDims(lookup.value.Len(), minWidth, maxWidth, maxHeight);
    var grid := FillGrid(groups, parts, scalars, filler, dims.Size());
    r := Ok(EvaluationGrid(lookup.value, dims, ColumnsOf(grid, dims)));
  }

  lemma LengthsAreLayout(groups: seq<Group>, parts: seq<seq<DataChunk>>, lens: seq<(AppId, nat)>)
    requires |groups| == |parts| == |lens|
    requires forall i :: 0 <= i < |groups| ==> lens[i] == (groups[i].0, |ScalarsOf(parts[i])|)
    ensures lens == LayoutOf(groups, parts)
  {
    hide ScalarsOf;
  }

  // ---------- How many cells a group takes ----------

  lemma {:induction false} PaddedChunksCount(data: seq<byte>)
    ensures |PaddedChunks(data)| == CeilDiv(|data|, 31)
  {
    if |data| > 31 {
      PaddedChunksCount(data[31..]);
    }
  }

  /** The first builder always adds a byte of padding, the second never does: they differ exactly on full last
      chunks. */
  lemma CellCounts(data: seq<byte>)
    requires |data| <= MAX_PADDABLE
    ensures PadToChunks(data).Some? && |PadToChunks(data).value| == |data| / 31 + 1
    ensures |PaddedChunks(data)| == CeilDiv(|data|, 31)
    ensures PaddedChunks(data) == PadToChunks(data).value <==> |data| % 31 != 0
  {
    PadToChunksCorrect(data);
    PaddedChunksCount(data);
    if |data| % 31 != 0 {
      SameChunks(data);
    }
  }

  lemma SameChunks(data: seq<byte>)
    requires |data| <= MAX_PADDABLE && |data| % 31 != 0
    ensures PadToChunks(data) == Some(PaddedChunks(data))
  {
    hide PaddedLenOfPad, PadToChunks, ChunksOf, PaddedChunks, ZeroBytes;
    var n := FillOfPartialChunk(|data|);
    ChunksOfFilled(data, |data| + n);
    ChunksOfPadded(data, n);
  }

  lemma FillOfPartialChunk(len: u32) returns (n: nat)
    requires len <= MAX_PADDABLE && len % 31 != 0
    ensures n < 31 && (len + n) % 31 == 0 && PaddedLenOfPad(len) == len + n
  {
    PaddedLenFormula(len);
    hide PaddedLenOfPad;
    n := 31 - len % 31;
    assert len + n == (len / 31 + 1) * 31;
  }

  lemma ChunksOfFilled(data: seq<byte>, padded: u32)
    requires |data| <= MAX_PADDABLE && |data| <= padded && padded % DATA_CHUNK_SIZE == 0
    requires PaddedLenOfPad(|data|) == padded
    ensures PadToChunks(data) == Some(ChunksOf(data + ZeroBytes(padded - |data|)))
  {
    hide PaddedLenOfPad, ChunksOf, ZeroBytes, DATA_CHUNK_SIZE;
    var resized := data + ZeroBytes(padded - |data|);
    assert |resized| == padded;
  }

  lemma {:induction false} ChunksOfPadded(data: seq<byte>, n: nat)
    requires |data| % 31 != 0 && n < 31 && (|data| + n) % 31 == 0
    ensures ChunksOf(data + ZeroBytes(n)) == PaddedChunks(data)
  {
    var s := data + ZeroBytes(n);
    if |data| > 31 {
      assert s[..31] == data[..31] && s[31..] == data[31..] + ZeroBytes(n);
      ChunksOfPadded(data[31..], n);
    } else {
      assert |s| == 31 && s[..31] == s && s[31..] == [];
      assert ChunksOf(s) == [s] + ChunksOf([]);
    }
  }

  // ---------- The cells of the grid carry the encodings ----------

  lemma {:induction false} PaddedChunksJoin(data: seq<byte>)
    requires data != []
    ensures var c := PaddedChunks(data);
      c != [] && |data| <= 31 * |c| && JoinChunks(c) == data + ZeroBytes(31 * |c| - |data|)
  {
    if |data| > 31 {
      PaddedChunksJoin(data[31..]);
      assert data == data[..31] + data[31..];
      assert PaddedChunks(data)[1..] == PaddedChunks(data[31..]);
    } else {
      assert JoinChunks(PaddedChunks(data)[1..]) == [];
    }
  }

  lemma {:induction false} GridCellsCarry(groups: seq<Group>, parts: seq<seq<DataChunk>>)
    requires GridCells(groups) == Some(parts)
    ensures AllCarried(groups, parts)
  {
    hide Scale.Encode, Scale.Encodable, PaddedChunks, JoinChunks;
    if groups != [] {
      PaddedChunksJoin(Scale.Encode(groups[0].1));
      assert Carries(groups[0].1, parts[0]);
      GridCellsCarry(groups[1..], parts[1..]);
      hide Carries;
      forall i | 0 <= i < |groups|
        ensures Carries(groups[i].1, parts[i])
      {
        assert i > 0 ==> groups[i] == groups[1..][i - 1] && parts[i] == parts[1..][i - 1];
      }
    }
  }
}
