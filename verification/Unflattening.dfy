/** Reading extrinsics back out of flat, padded data (`unflatten_padded_data`, kate/recovery/src/com.rs). */
module Unflattening {
  import opened Results
  import opened Bytes
  import opened DataLookup
  import opened Grouping
  import opened Flattening
  import Sparse = SparseSliceRead
  import Scale

  /** `RangePanic` stands for the panic of slicing outside the data. */
  datatype UnflattenError = InvalidLen | Codec | RangePanic

  /** The first 31 bytes of every whole chunk of 32 (`chunks_exact`), as slices. */
  function PayloadParts(s: seq<byte>): seq<seq<byte>> {
    if |s| < 32 then [] else [s[..31]] + PayloadParts(s[32..])
  }

  function UnflattenRange(range: Range, data: seq<byte>): Result<seq<seq<byte>>, UnflattenError> {
    if !(range.start <= range.end <= |data|) then Err(RangePanic) else
    match Scale.Decode(Concat(PayloadParts(data[range.start..range.end])))
    case None => Err(Codec)
    case Some((items, _)) => Ok(items)
  }

  function UnflattenRanges(ranges: seq<Entry>, data: seq<byte>): Result<seq<Group>, UnflattenError> {
    if ranges == [] then Ok([]) else
    var items :- UnflattenRange(ranges[0].1, data);
    var rest :- UnflattenRanges(ranges[1..], data);
    Ok([(ranges[0].0, items)] + rest)
  }

  function Unflatten(ranges: seq<Entry>, data: seq<byte>): Result<seq<Group>, UnflattenError> {
    if |data| % 32 != 0 then Err(InvalidLen) else UnflattenRanges(ranges, data)
  }

  method ExtractParts(s: seq<byte>) returns (parts: seq<seq<byte>>)
    ensures parts == PayloadParts(s)
  {
    parts := [];
    var i := 0;
    assert s[0..] == s;
    while i + 32 <= |s|
      invariant i <= |s| && PayloadParts(s) == parts + PayloadParts(s[i..])
    {
      var chunk := s[i..][..31];
      assert s[i..][32..] == s[i + 32..];
      assert parts + ([chunk] + PayloadParts(s[i + 32..])) == parts + [chunk] + PayloadParts(s[i + 32..]);
      parts := parts + [chunk];
      i := i + 32;
    }
    assert parts + [] == parts;
  }

  /** One turn of the closure: slices, wraps the payload parts in a sparse reader, and decodes through it. */
  method DecodeRange(range: Range, data: seq<byte>) returns (r: Result<seq<seq<byte>>, UnflattenError>)
    ensures r == UnflattenRange(range, data)
  {
    if !(range.start <= range.end <= |data|) {
      return Err(RangePanic);
    }
    var parts := ExtractParts(data[range.start..range.end]);
    var reader := new Sparse.SparseSliceRead(parts);
    var items := reader.DecodeAppData();
    r := if items == None then Err(Codec) else Ok(items.value);
  }

  /** `unflatten_padded_data`. */
  method UnflattenPaddedData(ranges: seq<Entry>, data: seq<byte>) returns (r: Result<seq<Group>, UnflattenError>)
    ensures r == Unflatten(ranges, data)
  {
    if |data| % 32 != 0 {
      return Err(InvalidLen);
    }
    hide UnflattenRange;
    var groups: seq<Group> := [];
    ghost var whole := UnflattenRanges(ranges, data);
    assert ranges[0..] == ranges;
    assert whole.Ok? ==> [] + whole.value == whole.value;
    for i := 0 to |ranges|
      invariant whole
        == match UnflattenRanges(ranges[i..], data) case Err(e) => Err(e) case Ok(rest) => Ok(groups + rest)
    {
      assert ranges[i..][0] == ranges[i] && ranges[i..][1..] == ranges[i + 1..];
      var items := DecodeRange(ranges[i].1, data);
      match items
      case Err(e) =>
        return Err(e);
      case Ok(v) =>
        ghost var rest := UnflattenRanges(ranges[i + 1..], data);
        assert rest.Ok? ==> groups + ([(ranges[i].0, v)] + rest.value) == (groups + [(ranges[i].0, v)]) + rest.value;
        groups := groups + [(ranges[i].0, v)];
    }
    assert ranges[|ranges|..] == [] && groups + [] == groups;
    r := Ok(groups);
  }

  // ---------- What unflattening accepts ----------

  lemma SliceOfRest(s: seq<byte>, i: nat, j: nat)
    requires 32 <= i <= j <= |s|
    ensures s[32..][i - 32..j - 32] == s[i..j]
  {}

  /** The parts are the first 31 bytes of every whole chunk. */
  lemma {:induction false} PartsOfChunks(s: seq<byte>)
    ensures |PayloadParts(s)| == |s| / 32
    ensures forall k :: 0 <= k < |PayloadParts(s)| ==> PayloadParts(s)[k] == s[32 * k..32 * k + 31]
  {
    if |s| >= 32 {
      PartsOfChunks(s[32..]);
      forall k | 0 < k < |PayloadParts(s)|
        ensures PayloadParts(s)[k] == s[32 * k..32 * k + 31]
      {
        assert PayloadParts(s)[k] == PayloadParts(s[32..])[k - 1];
        SliceOfRest(s, 32 * k, 32 * k + 31);
      }
    }
  }

  /** A list that can be encoded, and with whose encoding the bytes begin. */
  ghost predicate BeginWith(bytes: seq<byte>, items: seq<seq<byte>>) {
    Scale.Encodable(items) && Scale.Encode(items) <= bytes
  }

  lemma DecodesExactly(bytes: seq<byte>, items: seq<seq<byte>>)
    ensures BeginWith(bytes, items) <==> Scale.Decode(bytes).Some? && Scale.Decode(bytes).value.0 == items
  {
    hide Scale.Decode, Scale.Encode, Scale.Encodable;
    if BeginWith(bytes, items) {
      var enc := Scale.Encode(items);
      Scale.RoundTrip(items, bytes[|enc|..]);
      assert bytes == enc + bytes[|enc|..];
    }
    if Scale.Decode(bytes).Some? {
      Scale.DecodeIsCanonical(bytes);
    }
  }

  /** A range inside the data gives a list if and only if the payload of its chunks begins with the encoding of that
      list; other payloads are refused by the codec, and other ranges panic. */
  lemma UnflattenRangeExactly(range: Range, data: seq<byte>, items: seq<seq<byte>>)
    ensures var r := UnflattenRange(range, data);
      if !(range.start <= range.end <= |data|) then r == Err(RangePanic) else
      && (r == Ok(items) <==> BeginWith(Concat(PayloadParts(data[range.start..range.end])), items))
      && (r.Err? ==> r == Err(Codec))
  {
    if range.start <= range.end <= |data| {
      DecodesExactly(Concat(PayloadParts(data[range.start..range.end])), items);
    }
    hide BeginWith, Scale.Decode, PayloadParts;
  }

  /** Data that is not whole chunks is refused. Otherwise there is a group for each range, in order, unless a range is
      refused; the first such range decides the error. */
  lemma UnflattenExactly(ranges: seq<Entry>, data: seq<byte>)
    ensures var r := Unflatten(ranges, data);
      if |data| % 32 != 0 then r == Err(InvalidLen) else
      match r
      case Ok(groups) => AllUnflatten(ranges, data, groups)
      case Err(e) => exists i :: 0 <= i < |ranges| && RefusedFirst(ranges, data, i, e)
  {
    if |data| % 32 == 0 {
      RangesExactly(ranges, data);
    }
  }

  ghost predicate AllUnflatten(ranges: seq<Entry>, data: seq<byte>, groups: seq<Group>) {
    && |groups| == |ranges|
    && forall i :: 0 <= i < |ranges| ==>
      groups[i].0 == ranges[i].0 && UnflattenRange(ranges[i].1, data) == Ok(groups[i].1)
  }

  ghost predicate RefusedFirst(ranges: seq<Entry>, data: seq<byte>, i: nat, e: UnflattenError)
    requires i < |ranges|
  {
    && UnflattenRange(ranges[i].1, data) == Err(e)
    && forall k :: 0 <= k < i ==> UnflattenRange(ranges[k].1, data).Ok?
  }

  lemma {:induction false} RangesExactly(ranges: seq<Entry>, data: seq<byte>)
    ensures match UnflattenRanges(ranges, data)
            case Ok(groups) => AllUnflatten(ranges, data, groups)
            case Err(e) => exists i :: 0 <= i < |ranges| && RefusedFirst(ranges, data, i, e)
  {
    hide UnflattenRange;
    if ranges != [] {
      RangesExactly(ranges[1..], data);
      match UnflattenRange(ranges[0].1, data)
      case Err(e) =>
        assert RefusedFirst(ranges, data, 0, e);
      case Ok(_) =>
        match UnflattenRanges(ranges[1..], data)
        case Ok(_) =>
        case Err(e) =>
          var i :| 0 <= i < |ranges| - 1 && RefusedFirst(ranges[1..], data, i, e);
          assert RefusedFirst(ranges, data, i + 1, e) by {
            assert forall k :: 0 < k <= i ==> ranges[k] == ranges[1..][k - 1];
          }
    }
  }

  // ---------- Unflattening undoes flattening ----------

  lemma {:induction false} PayloadOfFlatBytes(cells: seq<DataChunk>)
    ensures Concat(PayloadParts(FlatBytes(cells))) == JoinChunks(cells)
  {
    if cells != [] {
      var s := FlatBytes(cells);
      FlatBytesCons(cells);
      hide FlatBytes;
      assert s[..31] == cells[0] && s[32..] == FlatBytes(cells[1..]);
      PayloadOfFlatBytes(cells[1..]);
      assert PayloadParts(s)[1..] == PayloadParts(s[32..]);
    }
  }

  lemma FlatBytesSlice(cells: seq<DataChunk>, s: nat, e: nat)
    requires s <= e <= |cells|
    ensures FlatBytes(cells)[32 * s..32 * e] == FlatBytes(cells[s..e])
  {
    hide FlatChunks, PadToChunk;
    FlatChunksSlice(Widened(cells), s, e);
    assert Widened(cells)[s..e] == Widened(cells[s..e]);
  }

  /** The bytes of a group's cells decode to the group, whatever surrounds them. */
  lemma RangeDecodes(range: Range, data: seq<byte>, items: seq<seq<byte>>, cells: seq<DataChunk>)
    requires Carries(items, cells)
    requires range.start <= range.end <= |data| && data[range.start..range.end] == FlatBytes(cells)
    ensures UnflattenRange(range, data) == Ok(items)
  {
    var enc := Scale.Encode(items);
    hide Scale.Encode, Scale.Decode, FlatBytes, JoinChunks;
    PayloadOfFlatBytes(cells);
    Scale.RoundTrip(items, ZeroBytes(31 * |cells| - |enc|));
  }

  /** Each range is the position of its own group's cells in the data. */
  ghost predicate RangesHold(ranges: seq<Entry>, groups: seq<Group>, parts: seq<seq<DataChunk>>, data: seq<byte>) {
    && |ranges| == |groups| == |parts|
    && forall i :: 0 <= i < |ranges| ==> RangeHolds(ranges[i], groups[i], parts[i], data)
  }

  ghost predicate RangeHolds(entry: Entry, group: Group, cells: seq<DataChunk>, data: seq<byte>) {
    && entry.0 == group.0
    && Carries(group.1, cells)
    && entry.1.start <= entry.1.end <= |data|
    && data[entry.1.start..entry.1.end] == FlatBytes(cells)
  }

  lemma {:induction false} RangesDecode(ranges: seq<Entry>, groups: seq<Group>, parts: seq<seq<DataChunk>>,
                                        data: seq<byte>)
    requires RangesHold(ranges, groups, parts, data)
    ensures UnflattenRanges(ranges, data) == Ok(groups)
  {
    hide UnflattenRange, Carries;
    if ranges != [] {
      assert RangeHolds(ranges[0], groups[0], parts[0], data);
      RangeDecodes(ranges[0].1, data, groups[0].1, parts[0]);
      assert RangesHold(ranges[1..], groups[1..], parts[1..], data) by {
        forall i | 0 <= i < |ranges| - 1
          ensures RangeHolds(ranges[1..][i], groups[1..][i], parts[1..][i], data)
        {
          assert RangeHolds(ranges[i + 1], groups[i + 1], parts[i + 1], data);
        }
      }
      RangesDecode(ranges[1..], groups[1..], parts[1..], data);
      assert groups == [groups[0]] + groups[1..];
    }
  }

  // ---------- Projection never overflows ----------

  /** The index that the layout of a block builds. */
  ghost predicate IndexOf(l: DataLookup, groups: seq<Group>, parts: seq<seq<DataChunk>>) {
    && Ordered(groups)
    && AllCarried(groups, parts)
    && |JoinCells(parts)| <= U32_MAX
    && FromIdAndLen(LayoutOf(groups, parts)) == Ok(l)
  }

  /** The byte offsets of all cells fit 32 bits, as they do in a flat block. */
  ghost predicate OffsetsFit(parts: seq<seq<DataChunk>>) {
    32 * |JoinCells(parts)| <= U32_MAX
  }

  lemma IndexLength(l: DataLookup, groups: seq<Group>, parts: seq<seq<DataChunk>>)
    requires IndexOf(l, groups, parts)
    ensures |l.index| == |groups| == |parts| && l.Len() == |JoinCells(parts)|
  {
    LayoutBuilds(groups, parts);
    hide FromIdAndLen, JoinCells, Tiles;
  }

  lemma IndexAt(l: DataLookup, groups: seq<Group>, parts: seq<seq<DataChunk>>, i: nat)
    requires IndexOf(l, groups, parts) && i < |groups|
    ensures |l.index| == |groups| == |parts| && l.index[i].0 == groups[i].0
    ensures var r := l.index[i].1;
      && r.start < r.end <= |JoinCells(parts)|
      && JoinCells(parts)[r.start..r.end] == parts[i]
      && Carries(groups[i].1, parts[i])
  {
    LayoutBuilds(groups, parts);
    RangeHoldsGroup(groups, parts, i);
  }

  /** A projected range holds its group in any data that agrees with the block's cells there. */
  lemma RangeHoldsIn(entry: Entry, group: Group, part: seq<DataChunk>, cells: seq<DataChunk>, r: Range, data: seq<byte>)
    requires r.start <= r.end <= |cells| && cells[r.start..r.end] == part && r.end * 32 <= U32_MAX
    requires entry == (group.0, Range(r.start * 32, r.end * 32)) && Carries(group.1, part)
    requires |data| == 32 * |cells|
    requires data[32 * r.start..32 * r.end] == FlatBytes(cells)[32 * r.start..32 * r.end]
    ensures RangeHolds(entry, group, part, data)
  {
    hide FlatBytes, Carries;
    FlatBytesSlice(cells, r.start, r.end);
  }

  /** The projected ranges of an index, one by one. */
  lemma IndexProjects(l: DataLookup, groups: seq<Group>, parts: seq<seq<DataChunk>>)
    requires IndexOf(l, groups, parts) && OffsetsFit(parts)
    ensures |l.index| == |groups| == |parts|
    ensures l.ProjectedRanges(32).Ok? && |l.ProjectedRanges(32).value| == |groups|
    ensures forall i :: 0 <= i < |groups| ==>
      && l.index[i].1.start < l.index[i].1.end <= |JoinCells(parts)| && l.index[i].1.end * 32 <= U32_MAX
      && l.ProjectedRanges(32).value[i]
        == (groups[i].0, Range(l.index[i].1.start * 32, l.index[i].1.end * 32))
  {
    IndexLength(l, groups, parts);
    hide IndexOf, JoinCells;
    forall i | 0 <= i < |groups|
      ensures l.index[i].0 == groups[i].0
      ensures 0 <= l.index[i].1.start < l.index[i].1.end <= |JoinCells(parts)| && l.index[i].1.end * 32 <= U32_MAX
    {
      IndexAt(l, groups, parts, i);
    }
    hide ProjectAll, Carries;
    ProjectedRangesExactly(l.index, 32);
  }

  /** In any data that agrees with the block on range i, that range holds group i. */
  lemma GroupRangeHolds(l: DataLookup, groups: seq<Group>, parts: seq<seq<DataChunk>>, cells: seq<DataChunk>, i: nat,
                        data: seq<byte>)
    requires IndexOf(l, groups, parts) && JoinCells(parts) <= cells && i < |groups| == |l.index|
    requires |data| == 32 * |cells|
    requires l.index[i].1.start <= l.index[i].1.end <= |cells| && l.index[i].1.end * 32 <= U32_MAX
    requires var r := l.index[i].1;
      data[32 * r.start..32 * r.end] == FlatBytes(cells)[32 * r.start..32 * r.end]
    ensures var r := l.index[i].1;
      && |parts| == |groups|
      && RangeHolds((groups[i].0, Range(r.start * 32, r.end * 32)), groups[i], parts[i], data)
  {
    IndexAt(l, groups, parts, i);
    hide *;
    var r := l.index[i].1;
    PrefixSlice(JoinCells(parts), cells, r.start, r.end);
    RangeHoldsIn((groups[i].0, Range(r.start * 32, r.end * 32)), groups[i], parts[i], cells, r, data);
  }

  lemma PrefixSlice(a: seq<DataChunk>, b: seq<DataChunk>, s: nat, e: nat)
    requires a <= b && s <= e <= |a|
    ensures b[s..e] == a[s..e]
  {}

  lemma WholeChunks(ranges: seq<Entry>, data: seq<byte>, n: nat)
    requires |data| == 32 * n
    ensures Unflatten(ranges, data) == UnflattenRanges(ranges, data)
  {}

  /** No projected range is empty or leaves the data. */
  lemma ProjectedRangesInBounds(l: DataLookup, groups: seq<Group>, parts: seq<seq<DataChunk>>, cells: seq<DataChunk>)
    requires IndexOf(l, groups, parts) && OffsetsFit(parts) && JoinCells(parts) <= cells
    ensures l.ProjectedRanges(32).Ok?
    ensures forall e :: e in l.ProjectedRanges(32).value ==> e.1.start < e.1.end <= |FlatBytes(cells)|
  {
    IndexProjects(l, groups, parts);
    hide ProjectAll, IndexOf, JoinCells, FlatBytes;
  }

  /** The flat block unflattens, through the projected ranges of its index, to its groups. */
  lemma UnflattenRestores(l: DataLookup, groups: seq<Group>, parts: seq<seq<DataChunk>>, cells: seq<DataChunk>)
    requires IndexOf(l, groups, parts) && OffsetsFit(parts) && JoinCells(parts) <= cells
    ensures l.ProjectedRanges(32).Ok?
    ensures Unflatten(l.ProjectedRanges(32).value, FlatBytes(cells)) == Ok(groups)
  {
    IndexProjects(l, groups, parts);
    var ranges, data := l.ProjectedRanges(32).value, FlatBytes(cells);
    hide ProjectAll, IndexOf, JoinCells, Carries, FlatBytes, Unflatten, UnflattenRanges, RangeHolds;
    forall i | 0 <= i < |groups|
      ensures RangeHolds(ranges[i], groups[i], parts[i], data)
    {
      GroupRangeHolds(l, groups, parts, cells, i, data);
    }
    RangesDecode(ranges, groups, parts, data);
    WholeChunks(ranges, data, |cells|);
  }
}
