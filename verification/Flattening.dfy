/** Building the flat, padded data of a block from its extrinsics (`flatten_and_pad_block`, kate/src/com.rs, and the
    padding length in kate/src/lib.rs). */
module Flattening {
  import opened Results
  import opened Bytes
  import opened DataLookup
  import opened Grouping
  import opened Sizing
  import opened Division
  import Scale

  // ---------- Padding to whole chunks ----------

  function SaturatingAdd(a: u32, b: u32): u32 {
    if a + b > U32_MAX then U32_MAX else a + b
  }

  /** `padded_len_of_pad_iec_9797_1`. */
  function PaddedLenOfPad(len: u32): u32 {
    var lenPlusOne := SaturatingAdd(len, 1);
    var offset := (DATA_CHUNK_SIZE - lenPlusOne % DATA_CHUNK_SIZE) % DATA_CHUNK_SIZE;
    SaturatingAdd(lenPlusOne, offset)
  }

  /** `padded_len`: none where its 32-bit arithmetic overflows. */
  function PaddedLen(len: u32, chunkSize: u32): Option<u32>
    requires chunkSize >= DATA_CHUNK_SIZE
  {
    var padded := PaddedLenOfPad(len);
    var extra := padded / DATA_CHUNK_SIZE * (chunkSize - DATA_CHUNK_SIZE);
    MulLe(0, padded / DATA_CHUNK_SIZE, chunkSize - DATA_CHUNK_SIZE);
    if padded + extra > U32_MAX then None else Some(padded + extra)
  }

  function ChunksOf(s: seq<byte>): (c: seq<DataChunk>)
    requires |s| % DATA_CHUNK_SIZE == 0
    ensures |c| == |s| / DATA_CHUNK_SIZE
  {
    if s == [] then [] else [s[..31]] + ChunksOf(s[31..])
  }

  /** `pad_iec_9797_1`: zeros up to the padded length, cut into chunks; none where the `expect` fires. */
  function PadToChunks(data: seq<byte>): Option<seq<DataChunk>> {
    var len: u32 := if |data| <= U32_MAX then |data| else U32_MAX;
    var padded := PaddedLenOfPad(len);
    var resized := if |data| <= padded then data + ZeroBytes(padded - |data|) else data[..padded];
    if padded % DATA_CHUNK_SIZE != 0 then None else Some(ChunksOf(resized))
  }

  /** `pad_to_chunk` at 32 bytes. */
  function PadToChunk(c: DataChunk): Chunk {
    c + [0]
  }

  function Widened(cells: seq<DataChunk>): (chunks: seq<Chunk>)
    ensures |chunks| == |cells|
  {
    seq(|cells|, k requires 0 <= k < |cells| => PadToChunk(cells[k]))
  }

  function FlatBytes(cells: seq<DataChunk>): (s: seq<byte>)
    ensures |s| == CHUNK_SIZE * |cells|
  {
    FlatChunks(Widened(cells))
  }

  function JoinChunks(cells: seq<DataChunk>): seq<byte> {
    if cells == [] then [] else cells[0] + JoinChunks(cells[1..])
  }

  function JoinCells(parts: seq<seq<DataChunk>>): seq<DataChunk> {
    if parts == [] then [] else parts[0] + JoinCells(parts[1..])
  }

  // ---------- The block ----------

  datatype Flattened = Flattened(layout: seq<(AppId, nat)>, data: seq<byte>, dims: BlockDimensions)

  /** The cells of one group; none where the codec or the padding panics. */
  function CellsOfGroup(items: seq<seq<byte>>): Option<seq<DataChunk>> {
    if Scale.Encodable(items) then PadToChunks(Scale.Encode(items)) else None
  }

  function CellsOfGroups(groups: seq<Group>): (r: Option<seq<seq<DataChunk>>>)
    ensures r.Some? ==> |r.value| == |groups|
  {
    if groups == [] then Some([]) else
    var first :- CellsOfGroup(groups[0].1);
    var rest :- CellsOfGroups(groups[1..]);
    Some([first] + rest)
  }

  function LayoutOf(groups: seq<Group>, cells: seq<seq<DataChunk>>): (layout: seq<(AppId, nat)>)
    requires |groups| == |cells|
    ensures |layout| == |groups|
  {
    seq(|groups|, i requires 0 <= i < |groups| => (groups[i].0, |cells[i]|))
  }

  function FillerFrom(filler: nat -> DataChunk, n: nat): seq<DataChunk> {
    seq(n, i requires 0 <= i => filler(i))
  }

  /** The whole of `flatten_and_pad_block`; `filler` is the stream of random chunks. */
  function Flatten(maxRows: u32, maxCols: u32, xs: seq<AppExtrinsic>, filler: nat -> DataChunk)
    : Result<Flattened, Error>
  {
    var groups := Grouped(xs);
    match CellsOfGroups(groups)
    case None => Err(Panic)
    case Some(cells) =>
      var padded := FlatBytes(JoinCells(cells));
      if |padded| > U32_MAX then Err(BlockTooBig) else
      var dims :- GetBlockDimensions(|padded|, maxRows, maxCols);
      if |padded| > dims.size then Err(BlockTooBig) else
      var last := (dims.size - |padded|) / CHUNK_SIZE;
      Ok(Flattened(LayoutOf(groups, cells), padded + FlatBytes(FillerFrom(filler, last)), dims))
  }

  lemma FlatBytesConcat(a: seq<DataChunk>, b: seq<DataChunk>)
    ensures FlatBytes(a + b) == FlatBytes(a) + FlatBytes(b)
  {
    hide FlatChunks, PadToChunk;
    FlatChunksConcat(Widened(a), Widened(b));
    assert Widened(a + b) == Widened(a) + Widened(b);
  }

  lemma FlatBytesCons(cells: seq<DataChunk>)
    requires cells != []
    ensures FlatBytes(cells) == PadToChunk(cells[0]) + FlatBytes(cells[1..])
  {
    hide PadToChunk;
    assert Widened(cells)[1..] == Widened(cells[1..]);
  }

  lemma FlatBytesOfOne(c: DataChunk)
    ensures FlatBytes([c]) == PadToChunk(c)
  {
    FlatBytesCons([c]);
    assert FlatBytes([c][1..]) == [];
  }

  lemma {:induction false} JoinCellsConcat(a: seq<seq<DataChunk>>, b: seq<seq<DataChunk>>)
    ensures JoinCells(a + b) == JoinCells(a) + JoinCells(b)
  {
    if a == [] {
      assert a + b == b;
    } else {
      assert (a + b)[1..] == a[1..] + b;
      JoinCellsConcat(a[1..], b);
    }
  }

  /** The `map` over the groups: encodes and pads each one, and notes how many chunks it takes. */
  method PadGroups(groups: seq<Group>) returns (layout: seq<(AppId, nat)>, chunks: Option<seq<seq<DataChunk>>>)
    ensures chunks == CellsOfGroups(groups)
    ensures chunks.Some? ==> layout == LayoutOf(groups, chunks.value)
  {
    hide CellsOfGroup;
    var done: seq<seq<DataChunk>> := [];
    layout := [];
    ghost var whole := CellsOfGroups(groups);
    assert groups[0..] == groups;
    assert whole.Some? ==> [] + whole.value == whole.value;
    for i := 0 to |groups|
      invariant |done| == i && |layout| == i
      invariant forall k :: 0 <= k < i ==> layout[k] == (groups[k].0, |done[k]|)
      invariant whole == match CellsOfGroups(groups[i..]) case None => None case Some(rest) => Some(done + rest)
    {
      assert groups[i..][0] == groups[i] && groups[i..][1..] == groups[i + 1..];
      match CellsOfGroup(groups[i].1)
      case None =>
        return layout, None;
      case Some(cells) =>
        ghost var rest := CellsOfGroups(groups[i + 1..]);
        assert rest.Some? ==> done + ([cells] + rest.value) == (done + [cells]) + rest.value;
        layout := layout + [(groups[i].0, |cells|)];
        done := done + [cells];
    }
    assert groups[|groups|..] == [] && done + [] == done;
    chunks := Some(done);
  }

  /** `flatten_and_pad_block`: pads and widens group by group, sizes the block, and fills it up with random chunks. */
  method FlattenAndPadBlock(maxRows: u32, maxCols: u32, xs: seq<AppExtrinsic>, filler: nat -> DataChunk)
    returns (r: Result<Flattened, Error>)
    ensures r == Flatten(maxRows, maxCols, xs, filler)
  {
    hide FlatBytes, JoinCells, CellsOfGroups, GetBlockDimensions;
    var groups := AppExtrinsicsGroupByAppId(Sorted(xs));
    var layout, chunks := PadGroups(groups);
    if chunks == None {
      return Err(Panic);
    }
    var padded := WidenAll(chunks.value);
    if |padded| > U32_MAX {
      return Err(BlockTooBig);
    }
    var dims :- GetBlockDimensions(|padded|, maxRows, maxCols);
    if |padded| > dims.size {
      return Err(BlockTooBig);
    }
    var data := AppendFiller(padded, (dims.size - |padded|) / CHUNK_SIZE, filler);
    r := Ok(Flattened(layout, data, dims));
  }

  /** The nested `flat_map` that widens every chunk of every group. */
  method WidenAll(chunks: seq<seq<DataChunk>>) returns (padded: seq<byte>)
    ensures padded == FlatBytes(JoinCells(chunks))
  {
    hide FlatBytes;
    assert FlatBytes([]) == [] by { NoBytes(); }
    padded := [];
    for i := 0 to |chunks|
      invariant padded == FlatBytes(JoinCells(chunks[..i]))
    {
      assert chunks[..i + 1] == chunks[..i] + [chunks[i]];
      JoinCellsConcat(chunks[..i], [chunks[i]]);
      assert JoinCells([chunks[i]]) == chunks[i];
      FlatBytesConcat(JoinCells(chunks[..i]), chunks[i]);
      padded := WidenGroup(padded, chunks[i]);
    }
    assert chunks[..|chunks|] == chunks;
  }

  lemma NoBytes()
    ensures FlatBytes([]) == []
  {}

  method WidenGroup(before: seq<byte>, chunks: seq<DataChunk>) returns (padded: seq<byte>)
    ensures padded == before + FlatBytes(chunks)
  {
    hide FlatBytes, PadToChunk;
    NoBytes();
    padded := before;
    assert chunks[..0] == [];
    for j := 0 to |chunks|
      invariant padded == before + FlatBytes(chunks[..j])
    {
      assert chunks[..j + 1] == chunks[..j] + [chunks[j]];
      FlatBytesConcat(chunks[..j], [chunks[j]]);
      FlatBytesOfOne(chunks[j]);
      padded := padded + PadToChunk(chunks[j]);
    }
    assert chunks[..|chunks|] == chunks;
  }

  method AppendFiller(padded: seq<byte>, last: nat, filler: nat -> DataChunk) returns (data: seq<byte>)
    ensures data == padded + FlatBytes(FillerFrom(filler, last))
  {
    hide FlatBytes, PadToChunk;
    NoBytes();
    data := padded;
    ghost var all := FillerFrom(filler, last);
    for k := 0 to last
      invariant data == padded + FlatBytes(all[..k])
    {
      assert all[..k + 1] == all[..k] + [filler(k)];
      FlatBytesConcat(all[..k], [filler(k)]);
      FlatBytesOfOne(filler(k));
      data := data + PadToChunk(filler(k));
    }
    assert all[..last] == all;
  }

  // ---------- What the padding does ----------

  const MAX_PADDABLE: nat := 4294967291

  /** Up to the largest length that can be padded, the padded length is the least multiple of 31 above the length. */
  lemma PaddedLenIsLeast(len: u32)
    requires len <= MAX_PADDABLE
    ensures PaddedLenOfPad(len) % 31 == 0 && len < PaddedLenOfPad(len)
    ensures forall m :: m > len && m % 31 == 0 ==> m >= PaddedLenOfPad(len)
    ensures PaddedLenOfPad(len) == (len / 31 + 1) * 31
  {
    PaddedLenFormula(len);
    hide PaddedLenOfPad;
    forall m | m > len && m % 31 == 0
      ensures m >= (len / 31 + 1) * 31
    {
      NextMultiple(len, m);
    }
  }

  lemma NextMultiple(len: nat, m: nat)
    requires m > len && m % 31 == 0
    ensures m >= (len / 31 + 1) * 31
  {
    var q := m / 31;
    assert m == 31 * q && len / 31 < q;
  }

  lemma PaddedLenFormula(len: u32)
    requires len <= MAX_PADDABLE
    ensures PaddedLenOfPad(len) == (len / 31 + 1) * 31
  {
    var q, r := len / 31, len % 31;
    assert len == 31 * q + r;
    if r == 30 {
      assert len + 1 == 31 * (q + 1) && (len + 1) % 31 == 0;
    } else {
      assert (len + 1) % 31 == r + 1;
    }
  }

  lemma BeyondPaddable(len: u32)
    requires len > MAX_PADDABLE
    ensures PaddedLenOfPad(len) == U32_MAX && U32_MAX % 31 != 0
  {}

  /** Padding succeeds exactly up to that length; it appends zeros, at least one, to floor(len / 31) + 1 whole
      chunks. */
  lemma PadToChunksCorrect(data: seq<byte>)
    ensures PadToChunks(data).Some? <==> |data| <= MAX_PADDABLE
    ensures PadToChunks(data).Some? ==>
      var cells := PadToChunks(data).value;
      && |cells| == |data| / 31 + 1
      && JoinChunks(cells) == data + ZeroBytes(31 * |cells| - |data|)
  {
    if |data| <= MAX_PADDABLE {
      PaddedLenIsLeast(|data|);
      var padded := PaddedLenOfPad(|data|);
      JoinOfChunks(data + ZeroBytes(padded - |data|));
    } else {
      BeyondPaddable(if |data| <= U32_MAX then |data| else U32_MAX);
    }
  }

  lemma {:induction false} JoinOfChunks(s: seq<byte>)
    requires |s| % 31 == 0
    ensures JoinChunks(ChunksOf(s)) == s
  {
    if s != [] {
      JoinOfChunks(s[31..]);
      assert s == s[..31] + s[31..];
    }
  }

  /** `padded_len` is the number of bytes of those chunks widened to `chunkSize`, while that fits 32 bits. */
  lemma PaddedLenCorrect(data: seq<byte>, chunkSize: u32)
    requires |data| <= MAX_PADDABLE && chunkSize >= DATA_CHUNK_SIZE
    ensures var total := |PadToChunks(data).value| * chunkSize;
      PadToChunks(data).Some? && PaddedLen(|data|, chunkSize) == if total <= U32_MAX then Some(total) else None
  {
    PadToChunksCorrect(data);
    PaddedLenIsLeast(|data|);
    hide PadToChunks, PaddedLenOfPad;
    var n := |data| / 31 + 1;
    assert PaddedLenOfPad(|data|) / 31 == n;
    assert n * 31 + n * (chunkSize - 31) == n * chunkSize;
  }

  // ---------- What the block holds ----------

  /** The cells of a flattened block: those of its groups, then filler. */
  ghost predicate HoldsCells(f: Flattened, groups: seq<Group>, parts: seq<seq<DataChunk>>, cells: seq<DataChunk>) {
    && CellsOfGroups(groups) == Some(parts)
    && JoinCells(parts) <= cells
    && f.layout == LayoutOf(groups, parts)
    && f.data == FlatBytes(cells)
    && |cells| == f.dims.rows * f.dims.cols
  }

  /** What an accepted block is made of. */
  ghost predicate MadeOf(f: Flattened, maxRows: u32, maxCols: u32, groups: seq<Group>, parts: seq<seq<DataChunk>>,
                         filler: nat -> DataChunk)
  {
    var used := JoinCells(parts);
    && CellsOfGroups(groups) == Some(parts)
    && CHUNK_SIZE * |used| <= U32_MAX
    && GetBlockDimensions(CHUNK_SIZE * |used|, maxRows, maxCols) == Ok(f.dims)
    && CHUNK_SIZE * |used| <= f.dims.size
    && f.layout == LayoutOf(groups, parts)
    && f.data == FlatBytes(used) + FlatBytes(FillerFrom(filler, (f.dims.size - CHUNK_SIZE * |used|) / CHUNK_SIZE))
  }

  lemma FlattenUnfolds(maxRows: u32, maxCols: u32, xs: seq<AppExtrinsic>, filler: nat -> DataChunk)
    returns (parts: seq<seq<DataChunk>>)
    requires Flatten(maxRows, maxCols, xs, filler).Ok?
    ensures MadeOf(Flatten(maxRows, maxCols, xs, filler).value, maxRows, maxCols, Grouped(xs), parts, filler)
  {
    hide GetBlockDimensions, CellsOfGroups, Grouped, FlatBytes, JoinCells;
    parts := CellsOfGroups(Grouped(xs)).value;
  }

  /** An accepted block is exactly full: its cells are those of the groups followed by filler, one per matrix
      position. */
  lemma BlockIsFull(f: Flattened, maxRows: u32, maxCols: u32, groups: seq<Group>, parts: seq<seq<DataChunk>>,
                    filler: nat -> DataChunk) returns (cells: seq<DataChunk>)
    requires MadeOf(f, maxRows, maxCols, groups, parts, filler)
    ensures HoldsCells(f, groups, parts, cells)
    ensures |f.data| == f.dims.size == CHUNK_SIZE * |cells|
    ensures cells == JoinCells(parts) + FillerFrom(filler, |cells| - |JoinCells(parts)|)
  {
    var used := JoinCells(parts);
    hide GetBlockDimensions, CellsOfGroups, FlatBytes, JoinCells;
    BlockDimensionsShape(CHUNK_SIZE * |used|, maxRows, maxCols);
    FillCount(f.dims.size, |used|, f.dims.rows * f.dims.cols);
    var fill := FillerFrom(filler, f.dims.rows * f.dims.cols - |used|);
    cells := used + fill;
    FlatBytesConcat(used, fill);
  }

  lemma FillCount(size: nat, used: nat, cells: nat)
    requires size == cells * CHUNK_SIZE && CHUNK_SIZE * used <= size
    ensures (size - CHUNK_SIZE * used) / CHUNK_SIZE == cells - used
  {}

  // ---------- The layout indexes the block ----------

  /** The cells of a group hold its encoding, then only zeros, and there is at least one cell. */
  ghost predicate Carries(items: seq<seq<byte>>, cells: seq<DataChunk>) {
    && Scale.Encodable(items) && cells != [] && |Scale.Encode(items)| <= 31 * |cells|
    && JoinChunks(cells) == Scale.Encode(items) + ZeroBytes(31 * |cells| - |Scale.Encode(items)|)
  }

  ghost predicate AllCarried(groups: seq<Group>, parts: seq<seq<DataChunk>>) {
    |groups| == |parts| && forall i :: 0 <= i < |groups| ==> Carries(groups[i].1, parts[i])
  }

  lemma {:induction false} CellsOfGroupsCarry(groups: seq<Group>, parts: seq<seq<DataChunk>>)
    requires CellsOfGroups(groups) == Some(parts)
    ensures AllCarried(groups, parts)
  {
    if groups != [] {
      CellsCarry(groups[0].1);
      CellsOfGroupsCarry(groups[1..], parts[1..]);
      hide CellsOfGroup, Carries;
      forall i | 0 <= i < |groups|
        ensures Carries(groups[i].1, parts[i])
      {
        assert i > 0 ==> groups[i] == groups[1..][i - 1] && parts[i] == parts[1..][i - 1];
      }
    }
  }

  lemma CellsCarry(items: seq<seq<byte>>)
    requires CellsOfGroup(items).Some?
    ensures Carries(items, CellsOfGroup(items).value)
  {
    PadToChunksCorrect(Scale.Encode(items));
    hide PadToChunks, Scale.Encode, Scale.Encodable;
  }

  lemma {:induction false} TotalOfLayout(groups: seq<Group>, parts: seq<seq<DataChunk>>)
    requires |groups| == |parts|
    ensures Total(LayoutOf(groups, parts)) == |JoinCells(parts)|
  {
    if groups != [] {
      TotalOfLayout(groups[1..], parts[1..]);
      assert LayoutOf(groups, parts)[1..] == LayoutOf(groups[1..], parts[1..]);
    }
  }

  /** The layout of ordered groups that fit 32 bits always builds an index. */
  lemma LayoutBuilds(groups: seq<Group>, parts: seq<seq<DataChunk>>)
    requires Ordered(groups) && AllCarried(groups, parts) && |JoinCells(parts)| <= U32_MAX
    ensures FromIdAndLen(LayoutOf(groups, parts)).Ok?
    ensures var l := FromIdAndLen(LayoutOf(groups, parts)).value;
      |l.index| == |groups| && l.Len() == |JoinCells(parts)| && Tiles(l.index, 0)
      && forall i :: 0 <= i < |groups| ==> l.index[i].0 == groups[i].0
  {
    var layout := LayoutOf(groups, parts);
    TotalOfLayout(groups, parts);
    forall i | 0 <= i < |layout|
      ensures layout[i].1 > 0
    {
      assert Carries(groups[i].1, parts[i]);
    }
    FromIdAndLenCorrect(layout);
  }

  /** Range i of the index is where the cells of group i lie. */
  lemma {:induction false} RangeHoldsGroup(groups: seq<Group>, parts: seq<seq<DataChunk>>, i: nat)
    requires |groups| == |parts| && i < |groups| && FromIdAndLen(LayoutOf(groups, parts)).Ok?
    requires |FromIdAndLen(LayoutOf(groups, parts)).value.index| == |groups|
    ensures var r := FromIdAndLen(LayoutOf(groups, parts)).value.index[i].1;
      && r.start == |JoinCells(parts[..i])| <= r.end == |JoinCells(parts[..i + 1])| <= |JoinCells(parts)|
      && JoinCells(parts)[r.start..r.end] == parts[i]
  {
    LayoutRangeAt(groups, parts, i);
    SliceOfParts(parts, i);
    hide FromIdAndLen, JoinCells, LayoutOf;
    if i > 0 {
      RangeHoldsGroup(groups, parts, i - 1);
    }
  }

  lemma LayoutRangeAt(groups: seq<Group>, parts: seq<seq<DataChunk>>, i: nat)
    requires |groups| == |parts| && i < |groups| && FromIdAndLen(LayoutOf(groups, parts)).Ok?
    requires |FromIdAndLen(LayoutOf(groups, parts)).value.index| == |groups|
    ensures var index := FromIdAndLen(LayoutOf(groups, parts)).value.index;
      && index[i].1.end == index[i].1.start + |parts[i]|
      && index[i].1.start == if i == 0 then 0 else index[i - 1].1.end
  {
    IndexFromAt(LayoutOf(groups, parts), None, 0, i);
    hide IndexFrom;
  }

  lemma SliceOfParts(parts: seq<seq<DataChunk>>, i: nat)
    requires i < |parts|
    ensures |JoinCells(parts[..i])| + |parts[i]| == |JoinCells(parts[..i + 1])| <= |JoinCells(parts)|
    ensures JoinCells(parts)[|JoinCells(parts[..i])|..|JoinCells(parts[..i + 1])|] == parts[i]
    ensures JoinCells(parts[..0]) == []
  {
    assert parts[..i + 1] == parts[..i] + [parts[i]];
    JoinCellsConcat(parts[..i], [parts[i]]);
    assert JoinCells([parts[i]]) == parts[i];
    assert parts == parts[..i + 1] + parts[i + 1..];
    JoinCellsConcat(parts[..i + 1], parts[i + 1..]);
  }
}
