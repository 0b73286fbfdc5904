/** The index of application data inside a block and its compact form (core/src/data_lookup). */
module DataLookup {
  import opened Results
  import opened Bytes

  type AppId = u32

  datatype Range = Range(start: u32, end: u32)

  datatype LookupError = DataNotSorted | DataEmptyOn(id: AppId) | OffsetOverflows

  type Entry = (AppId, Range)

  datatype DataLookup = DataLookup(index: seq<Entry>) {
    function Len(): u32 {
      if index == [] then 0 else index[|index| - 1].1.end
    }

    predicate IsError() {
      Len() == 0 && index != []
    }

    function RangeOf(id: AppId): Option<Range> {
      FindRange(index, id)
    }

    function ProjectedRangeOf(id: AppId, chunkSize: u32): Option<Range> {
      var r :- RangeOf(id);
      Project(r, chunkSize)
    }

    function ProjectedRanges(chunkSize: u32): Result<seq<Entry>, LookupError> {
      ProjectAll(index, chunkSize)
    }
  }

  function FindRange(index: seq<Entry>, id: AppId): Option<Range> {
    if index == [] then None
    else if index[0].0 == id then Some(index[0].1)
    else FindRange(index[1..], id)
  }

  /** Both ends multiplied by the chunk size, none when either overflows. */
  function Project(r: Range, chunkSize: u32): Option<Range> {
    if r.start * chunkSize <= U32_MAX && r.end * chunkSize <= U32_MAX
    then Some(Range(r.start * chunkSize, r.end * chunkSize)) else None
  }

  function ProjectAll(index: seq<Entry>, chunkSize: u32): Result<seq<Entry>, LookupError> {
    if index == [] then Ok([]) else
    match Project(index[0].1, chunkSize)
    case None => Err(OffsetOverflows)
    case Some(r) =>
      var rest :- ProjectAll(index[1..], chunkSize);
      Ok([(index[0].0, r)] + rest)
  }

  /** Both ends of a range, times the size of a chunk, fit 32 bits. */
  ghost predicate Projectable(r: Range, chunkSize: u32) {
    r.start * chunkSize <= 0xffff_ffff && r.end * chunkSize <= 0xffff_ffff
  }

  ghost predicate IsProjection(p: Entry, e: Entry, chunkSize: u32) {
    p.0 == e.0 && p.1.start == e.1.start * chunkSize && p.1.end == e.1.end * chunkSize
  }

  /** All ranges are projected, in order, if and only if all their ends fit; otherwise the overflow is reported. */
  lemma {:induction false} ProjectedRangesExactly(index: seq<Entry>, chunkSize: u32)
    ensures ProjectAll(index, chunkSize).Ok? <==> forall i :: 0 <= i < |index| ==> Projectable(index[i].1, chunkSize)
    ensures ProjectAll(index, chunkSize).Err? ==> ProjectAll(index, chunkSize) == Err(OffsetOverflows)
    ensures ProjectAll(index, chunkSize).Ok? ==> |ProjectAll(index, chunkSize).value| == |index|
    ensures ProjectAll(index, chunkSize).Ok? ==> forall i :: 0 <= i < |index| ==>
      IsProjection(ProjectAll(index, chunkSize).value[i], index[i], chunkSize)
  {
    if index != [] {
      ProjectedRangesExactly(index[1..], chunkSize);
      assert forall i :: 0 < i < |index| ==> index[i] == index[1..][i - 1];
      assert forall i :: 0 <= i < |index| - 1 ==> index[1..][i] == index[i + 1];
    }
  }

  lemma ProjectedRangeExactly(l: DataLookup, id: AppId, chunkSize: u32)
    ensures l.ProjectedRangeOf(id, chunkSize).Some? <==>
      l.RangeOf(id).Some? && Projectable(l.RangeOf(id).value, chunkSize)
    ensures l.ProjectedRangeOf(id, chunkSize).Some? ==>
      IsProjection((id, l.ProjectedRangeOf(id, chunkSize).value), (id, l.RangeOf(id).value), chunkSize)
  {
    hide FindRange;
  }

  const ERROR_LOOKUP := DataLookup([(0, Range(0, 0))])

  // ---------- Building from ids and lengths ----------

  function IndexFrom(entries: seq<(AppId, nat)>, prev: Option<AppId>, offset: u32): Result<seq<Entry>, LookupError> {
    if entries == [] then Ok([]) else
    var (id, len) := entries[0];
    if prev.Some? && prev.value >= id then Err(DataNotSorted)
    else if len > U32_MAX then Err(OffsetOverflows)
    else if len == 0 then Err(DataEmptyOn(id))
    else if offset + len > U32_MAX then Err(OffsetOverflows)
    else
      var rest :- IndexFrom(entries[1..], Some(id), offset + len);
      Ok([(id, Range(offset, offset + len))] + rest)
  }

  function FromIdAndLen(entries: seq<(AppId, nat)>): Result<DataLookup, LookupError> {
    var index :- IndexFrom(entries, None, 0);
    Ok(DataLookup(index))
  }

  ghost function Prefixed(done: seq<Entry>, r: Result<seq<Entry>, LookupError>): Result<seq<Entry>, LookupError> {
    if r.Ok? then Ok(done + r.value) else r
  }

  /** `from_id_and_len_iter`. */
  method FromIdAndLenIter(entries: seq<(AppId, nat)>) returns (r: Result<DataLookup, LookupError>)
    ensures r == FromIdAndLen(entries)
  {
    var offset: u32 := 0;
    var maybePrev: Option<AppId> := None;
    var index: seq<Entry> := [];
    ghost var whole := IndexFrom(entries, None, 0);
    assert whole.Ok? ==> [] + whole.value == whole.value;
    assert entries[0..] == entries;
    for i := 0 to |entries|
      invariant whole == Prefixed(index, IndexFrom(entries[i..], maybePrev, offset))
    {
      var (id, len) := entries[i];
      assert entries[i..][0] == entries[i] && entries[i..][1..] == entries[i + 1..];
      ghost var rest := IndexFrom(entries[i..], maybePrev, offset);
      if maybePrev.Some? && !(maybePrev.value < id) {
        return Err(DataNotSorted);
      }
      if len > U32_MAX {
        return Err(OffsetOverflows);
      }
      if len == 0 {
        return Err(DataEmptyOn(id));
      }
      if offset + len > U32_MAX {
        return Err(OffsetOverflows);
      }
      ghost var tail := IndexFrom(entries[i + 1..], Some(id), offset + len);
      if tail.Ok? {
        assert index + rest.value == (index + [(id, Range(offset, offset + len))]) + tail.value;
      }
      maybePrev := Some(id);
      index := index + [(id, Range(offset, offset + len))];
      offset := offset + len;
    }
    assert index + [] == index;
    r := Ok(DataLookup(index));
  }

  function Total(entries: seq<(AppId, nat)>): nat {
    if entries == [] then 0 else entries[0].1 + Total(entries[1..])
  }

  ghost predicate Ascending(entries: seq<(AppId, nat)>) {
    forall i, j :: 0 <= i < j < |entries| ==> entries[i].0 < entries[j].0
  }

  /** Ids strictly ascend, every length is positive, and the lengths fit 32 bits together. */
  ghost predicate Buildable(entries: seq<(AppId, nat)>) {
    && Ascending(entries)
    && (forall i :: 0 <= i < |entries| ==> entries[i].1 > 0)
    && Total(entries) <= U32_MAX
  }

  /** Ids strictly ascend and the ranges tile an interval from `start` on, none of them empty. */
  ghost predicate Tiles(index: seq<Entry>, start: nat) {
    && (forall i, j :: 0 <= i < j < |index| ==> index[i].0 < index[j].0)
    && (forall i :: 0 <= i < |index| ==> index[i].1.start < index[i].1.end)
    && (forall i {:trigger index[i].1.start} :: 0 <= i < |index| ==>
          index[i].1.start == if i == 0 then start else index[i - 1].1.end)
  }

  lemma AscendingStep(entries: seq<(AppId, nat)>)
    requires entries != []
    ensures Ascending(entries) <==> Ascending(entries[1..]) && (|entries| > 1 ==> entries[0].0 < entries[1].0)
  {
    var tail := entries[1..];
    assert forall i :: 0 < i < |entries| ==> entries[i] == tail[i - 1];
    if Ascending(entries) {
      assert forall i :: 0 <= i < |tail| ==> tail[i] == entries[i + 1];
    }
  }

  lemma {:induction false} IndexFromSucceeds(entries: seq<(AppId, nat)>, prev: Option<AppId>, offset: u32)
    ensures IndexFrom(entries, prev, offset).Ok? <==>
      && Ascending(entries)
      && (forall i :: 0 <= i < |entries| ==> entries[i].1 > 0)
      && (entries != [] && prev.Some? ==> prev.value < entries[0].0)
      && offset + Total(entries) <= U32_MAX
  {
    if entries != [] {
      var (id, len) := entries[0];
      var tail := entries[1..];
      AscendingStep(entries);
      assert forall i :: 0 < i < |entries| ==> entries[i] == tail[i - 1];
      assert forall i :: 0 <= i < |tail| ==> tail[i] == entries[i + 1];
      if offset + len <= U32_MAX {
        IndexFromSucceeds(tail, Some(id), offset + len);
      }
    }
  }

  /** On ascending ids with positive lengths only an overflow can be reported. */
  lemma {:induction false} IndexFromOverflows(entries: seq<(AppId, nat)>, prev: Option<AppId>, offset: u32)
    requires Ascending(entries) && forall i :: 0 <= i < |entries| ==> entries[i].1 > 0
    requires entries != [] && prev.Some? ==> prev.value < entries[0].0
    ensures IndexFrom(entries, prev, offset).Err? ==> IndexFrom(entries, prev, offset) == Err(OffsetOverflows)
  {
    if entries != [] {
      var (id, len) := entries[0];
      AscendingStep(entries);
      assert forall i :: 0 <= i < |entries| - 1 ==> entries[1..][i] == entries[i + 1];
      if offset + len <= U32_MAX {
        IndexFromOverflows(entries[1..], Some(id), offset + len);
      }
    }
  }

  lemma {:induction false} IndexFromLength(entries: seq<(AppId, nat)>, prev: Option<AppId>, offset: u32)
    requires IndexFrom(entries, prev, offset).Ok?
    ensures |IndexFrom(entries, prev, offset).value| == |entries|
  {
    if entries != [] {
      IndexFromLength(entries[1..], Some(entries[0].0), offset + entries[0].1);
    }
  }

  lemma {:induction false} IndexFromAt(entries: seq<(AppId, nat)>, prev: Option<AppId>, offset: u32, i: nat)
    requires IndexFrom(entries, prev, offset).Ok? && i < |entries|
    ensures var index := IndexFrom(entries, prev, offset).value;
      && |index| == |entries|
      && index[i].0 == entries[i].0
      && index[i].1.end - index[i].1.start == entries[i].1 > 0
      && index[i].1.start == if i == 0 then offset else index[i - 1].1.end
  {
    var (id, len) := entries[0];
    IndexFromLength(entries, prev, offset);
    if i > 0 {
      IndexFromAt(entries[1..], Some(id), offset + len, i - 1);
    }
  }

  lemma {:induction false} IndexFromLen(entries: seq<(AppId, nat)>, prev: Option<AppId>, offset: u32)
    requires IndexFrom(entries, prev, offset).Ok? && entries != []
    ensures DataLookup(IndexFrom(entries, prev, offset).value).Len() == offset + Total(entries)
  {
    var (id, len) := entries[0];
    if |entries| > 1 {
      IndexFromLen(entries[1..], Some(id), offset + len);
    }
  }

  /** Building succeeds exactly on ascending ids with positive lengths that fit together, and the ranges then tile the
      interval from 0 with the given lengths in the given order. */
  lemma FromIdAndLenCorrect(entries: seq<(AppId, nat)>)
    ensures FromIdAndLen(entries).Ok? <==> Buildable(entries)
    ensures FromIdAndLen(entries).Ok? ==>
      var l := FromIdAndLen(entries).value;
      && |l.index| == |entries| && Tiles(l.index, 0) && l.Len() == Total(entries)
      && (forall i :: 0 <= i < |entries| ==> l.index[i].0 == entries[i].0)
      && (forall i :: 0 <= i < |entries| ==> l.index[i].1.end - l.index[i].1.start == entries[i].1)
  {
    IndexFromSucceeds(entries, None, 0);
    if FromIdAndLen(entries).Ok? {
      IndexFromTiles(entries);
      if entries != [] {
        IndexFromLen(entries, None, 0);
      }
      hide IndexFrom;
    }
  }

  lemma TailOfPrefix(entries: seq<(AppId, nat)>, i: nat)
    requires i < |entries|
    ensures entries[..i + 1][1..] == entries[1..][..i] && entries[..i + 1][0] == entries[0]
  {}

  lemma {:induction false} IndexFromRefuses(entries: seq<(AppId, nat)>, prev: Option<AppId>, offset: u32)
    returns (i: nat)
    requires IndexFrom(entries, prev, offset).Err?
    ensures i < |entries|
    ensures IndexFrom(entries[..i], prev, offset).Ok? && IndexFrom(entries[..i + 1], prev, offset).Err?
    ensures IndexFrom(entries, prev, offset)
      == Err(if i == 0 && prev.Some? && prev.value >= entries[0].0 then DataNotSorted
             else if i > 0 && entries[i - 1].0 >= entries[i].0 then DataNotSorted
             else if entries[i].1 == 0 then DataEmptyOn(entries[i].0) else OffsetOverflows)
  {
    var (id, len) := entries[0];
    i := 0;
    if !(prev.Some? && prev.value >= id) && 0 < len && offset + len <= U32_MAX {
      i := IndexFromRefuses(entries[1..], Some(id), offset + len);
      TailOfPrefix(entries, i);
      TailOfPrefix(entries, i + 1);
      i := i + 1;
    }
  }

  /** A refused list is refused at the first entry with which it cannot be built, and the error says why: an id that
      does not ascend, else an empty length, else an overflow. */
  lemma FromIdAndLenRefusesFirst(entries: seq<(AppId, nat)>) returns (i: nat)
    requires FromIdAndLen(entries).Err?
    ensures i < |entries| && Buildable(entries[..i]) && !Buildable(entries[..i + 1])
    ensures FromIdAndLen(entries)
      == Err(if i > 0 && entries[i - 1].0 >= entries[i].0 then DataNotSorted
             else if entries[i].1 == 0 then DataEmptyOn(entries[i].0) else OffsetOverflows)
  {
    i := IndexFromRefuses(entries, None, 0);
    hide IndexFrom, Buildable;
    FromIdAndLenCorrect(entries[..i]);
    FromIdAndLenCorrect(entries[..i + 1]);
  }

  lemma IndexFromTiles(entries: seq<(AppId, nat)>)
    requires IndexFrom(entries, None, 0).Ok? && Ascending(entries)
    ensures var index := IndexFrom(entries, None, 0).value;
      && |index| == |entries| && Tiles(index, 0)
      && (forall i :: 0 <= i < |entries| ==> index[i].0 == entries[i].0)
      && (forall i :: 0 <= i < |entries| ==> index[i].1.end - index[i].1.start == entries[i].1)
  {
    IndexFromLength(entries, None, 0);
    var index := IndexFrom(entries, None, 0).value;
    forall i | 0 <= i < |entries|
      ensures index[i].0 == entries[i].0 && index[i].1.end - index[i].1.start == entries[i].1 > 0
    {
      IndexFromAt(entries, None, 0, i);
    }
    forall i {:trigger index[i].1.start} | 0 <= i < |entries|
      ensures index[i].1.start == if i == 0 then 0 else index[i - 1].1.end
    {
      IndexFromAt(entries, None, 0, i);
    }
    hide IndexFrom;
  }

  /** The first entry of an application is its range, and an application without an entry has none. */
  lemma {:induction false} FindRangeIsFirst(index: seq<Entry>, id: AppId, i: nat)
    requires i <= |index| && forall k :: 0 <= k < i ==> index[k].0 != id
    ensures i == |index| ==> FindRange(index, id) == None
    ensures i < |index| && index[i].0 == id ==> FindRange(index, id) == Some(index[i].1)
  {
    if i > 0 {
      FindRangeIsFirst(index[1..], id, i - 1);
    }
  }

  lemma {:induction false} FindRangeFails(index: seq<Entry>, id: AppId)
    ensures FindRange(index, id) == None <==> forall i :: 0 <= i < |index| ==> index[i].0 != id
  {
    if index != [] {
      FindRangeFails(index[1..], id);
      assert forall i :: 0 < i < |index| ==> index[i] == index[1..][i - 1];
    }
  }

  // ---------- The compact form ----------

  datatype Item = Item(appId: AppId, start: u32)

  datatype CompactDataLookup = CompactDataLookup(size: u32, index: seq<Item>) {
    predicate IsError() {
      size == U32_MAX || (size == 0 && index != [])
    }
  }

  function CompactIndex(index: seq<Entry>): seq<Item> {
    if index == [] then []
    else if index[0].0 == 0 then CompactIndex(index[1..])
    else [Item(index[0].0, index[0].1.start)] + CompactIndex(index[1..])
  }

  /** `from_data_lookup`. */
  function Compact(l: DataLookup): CompactDataLookup {
    if l.IsError() then CompactDataLookup(0, [Item(0, 0)]) else CompactDataLookup(l.Len(), CompactIndex(l.index))
  }

  function ExpandFrom(items: seq<Item>, prev: AppId, offset: u32, size: u32): seq<Entry> {
    if items == [] then
      if offset < size then [(prev, Range(offset, size))] else []
    else
      [(prev, Range(offset, items[0].start))] + ExpandFrom(items[1..], items[0].appId, items[0].start, size)
  }

  function Expand(c: CompactDataLookup): Result<DataLookup, LookupError> {
    if c.IsError() then Ok(ERROR_LOOKUP) else
    var l := DataLookup(ExpandFrom(c.index, 0, 0, c.size));
    if l.Len() == c.size then Ok(l) else Err(DataNotSorted)
  }

  /** `try_from` on the compact form. */
  method TryFrom(c: CompactDataLookup) returns (r: Result<DataLookup, LookupError>)
    ensures r == Expand(c)
  {
    if c.IsError() {
      return Ok(ERROR_LOOKUP);
    }
    var offset: u32 := 0;
    var prev: AppId := 0;
    var index: seq<Entry> := [];
    ghost var whole := ExpandFrom(c.index, 0, 0, c.size);
    assert c.index[0..] == c.index;
    for i := 0 to |c.index|
      invariant whole == index + ExpandFrom(c.index[i..], prev, offset, c.size)
    {
      var item := c.index[i];
      assert c.index[i..][1..] == c.index[i + 1..];
      ghost var tail := ExpandFrom(c.index[i + 1..], item.appId, item.start, c.size);
      assert index + ([(prev, Range(offset, item.start))] + tail) == index + [(prev, Range(offset, item.start))] + tail;
      index := index + [(prev, Range(offset, item.start))];
      prev := item.appId;
      offset := item.start;
    }
    if offset < c.size {
      index := index + [(prev, Range(offset, c.size))];
    }
    assert index == whole;
    var lookup := DataLookup(index);
    r := if lookup.Len() == c.size then Ok(lookup) else Err(DataNotSorted);
  }

  lemma {:induction false} ExpandFromLen(items: seq<Item>, prev: AppId, offset: u32, size: u32)
    ensures var l := DataLookup(ExpandFrom(items, prev, offset, size));
      l.Len() == if items == [] then (if offset < size then size else 0)
                 else if items[|items| - 1].start < size then size else items[|items| - 1].start
  {
    if items != [] {
      ExpandFromLen(items[1..], items[0].appId, items[0].start, size);
      var tail := ExpandFrom(items[1..], items[0].appId, items[0].start, size);
      var whole := ExpandFrom(items, prev, offset, size);
      if tail != [] {
        assert whole[|whole| - 1] == tail[|tail| - 1];
      } else {
        assert |items| == 1;
      }
    }
  }

  /** Of all compact forms, only the ones with a last start beyond a size that is neither zero nor full are refused. A
      full size, and a size of zero with items, are the forms of the error index. */
  lemma ExpandSucceedsExactly(c: CompactDataLookup)
    ensures Expand(c).Ok? <==>
      c.size == 0xffff_ffff || c.size == 0 || c.index == [] || c.index[|c.index| - 1].start <= c.size
    ensures Expand(c).Err? ==> Expand(c) == Err(DataNotSorted)
    ensures c.size == 0xffff_ffff || (c.size == 0 && c.index != []) ==> Expand(c) == Ok(DataLookup([(0, Range(0, 0))]))
  {
    ExpandFromLen(c.index, 0, 0, c.size);
  }

  /** Application i of a compact form, from its start to the next one; the form begins with `prev` at `offset`. */
  ghost function EntryAt(items: seq<Item>, prev: AppId, offset: u32, size: u32, i: nat): Entry
    requires i <= |items|
  {
    var start := if i == 0 then offset else items[i - 1].start;
    (if i == 0 then prev else items[i - 1].appId, Range(start, if i < |items| then items[i].start else size))
  }

  /** What the other forms expand to: application 0 from zero on, then each item's one, the last one up to the size
      unless it starts there or beyond. */
  lemma ExpandedEntries(c: CompactDataLookup)
    requires Expand(c).Ok? && 0 < c.size < 0xffff_ffff
    ensures var index, n := Expand(c).value.index, |c.index|;
      && |index| == n + (if (if n == 0 then 0 else c.index[n - 1].start) < c.size then 1 else 0)
      && forall i :: 0 <= i < |index| ==> index[i] == EntryAt(c.index, 0, 0, c.size, i)
  {
    ExpandFromEntries(c.index, 0, 0, c.size);
    hide ExpandFrom;
  }

  lemma {:induction false} ExpandFromEntries(items: seq<Item>, prev: AppId, offset: u32, size: u32)
    ensures var index, n := ExpandFrom(items, prev, offset, size), |items|;
      && |index| == n + (if (if n == 0 then offset else items[n - 1].start) < size then 1 else 0)
      && forall i :: 0 <= i < |index| ==> index[i] == EntryAt(items, prev, offset, size, i)
  {
    if items != [] {
      var rest, first := items[1..], items[0];
      ExpandFromEntries(rest, first.appId, first.start, size);
      forall i | 0 < i <= |items|
        ensures EntryAt(items, prev, offset, size, i) == EntryAt(rest, first.appId, first.start, size, i - 1)
      {}
    }
  }

  lemma {:induction false} ExpandOfCompactTail(index: seq<Entry>, size: u32)
    requires index != [] && Tiles(index, index[0].1.start) && size == index[|index| - 1].1.end
    ensures ExpandFrom(CompactIndex(index[1..]), index[0].0, index[0].1.start, size) == index
  {
    var rest := index[1..];
    if rest != [] {
      TilesTail(index);
      ExpandOfCompactTail(rest, size);
      assert CompactIndex(rest) == [Item(rest[0].0, rest[0].1.start)] + CompactIndex(rest[1..]);
      hide Tiles;
      assert index[0] == (index[0].0, Range(index[0].1.start, rest[0].1.start));
    }
  }

  lemma TilesTail(index: seq<Entry>)
    requires |index| > 1 && Tiles(index, index[0].1.start)
    ensures Tiles(index[1..], index[1].1.start) && index[1].1.start == index[0].1.end && index[1].0 > 0
  {
    var rest := index[1..];
    assert forall i :: 0 <= i < |rest| ==> rest[i] == index[i + 1];
    assert index[0].0 < index[1].0;
    assert forall i {:trigger rest[i].1.start} :: 0 < i < |rest| ==> index[i + 1].1.start == index[i].1.end;
  }

  lemma ExpandFromZero(index: seq<Entry>, size: u32)
    requires index != [] && Tiles(index, 0) && size == index[|index| - 1].1.end
    ensures ExpandFrom(CompactIndex(index), 0, 0, size)
      == if index[0].0 == 0 then index else [(0, Range(0, 0))] + index
    ensures CompactIndex(index) == [] ==> index[0].0 == 0
  {
    assert index[0].1.start == 0;
    ExpandOfCompactTail(index, size);
  }

  /** Compacting and expanding: what comes back from any index built from ids and lengths. */
  lemma CompactThenExpand(entries: seq<(AppId, nat)>)
    requires FromIdAndLen(entries).Ok?
    ensures var l := FromIdAndLen(entries).value;
      Expand(Compact(l)) == Ok(
        if l.Len() == U32_MAX then ERROR_LOOKUP
        else if entries == [] || entries[0].0 == 0 then l
        else DataLookup([(0, Range(0, 0))] + l.index))
  {
    FromIdAndLenCorrect(entries);
    var l := FromIdAndLen(entries).value;
    hide FromIdAndLen, Tiles, Total;
    if entries == [] {
    } else {
      assert l.Len() > 0 && l.index[0].0 == entries[0].0 by { TilesNonEmpty(l.index); }
      ExpandFromZero(l.index, l.Len());
      LenOfPrefixed((0, Range(0, 0)), l.index);
      hide ExpandFrom, CompactIndex;
    }
  }

  lemma LenOfPrefixed(e: Entry, index: seq<Entry>)
    requires index != []
    ensures DataLookup([e] + index).Len() == DataLookup(index).Len()
  {}

  lemma TilesNonEmpty(index: seq<Entry>)
    requires index != [] && Tiles(index, 0)
    ensures DataLookup(index).Len() > 0
  {}

  lemma TotalPositive(entries: seq<(AppId, nat)>)
    requires entries != [] && entries[0].1 > 0
    ensures Total(entries) > 0
  {}

  /** The round trip is the identity exactly when the lookup is empty or starts at app 0, and is not full. */
  lemma RoundTripExactly(entries: seq<(AppId, nat)>)
    requires FromIdAndLen(entries).Ok?
    ensures var l := FromIdAndLen(entries).value;
      Expand(Compact(l)) == Ok(l) <==> (entries == [] || entries[0].0 == 0) && Total(entries) < U32_MAX
  {
    FromIdAndLenCorrect(entries);
    CompactThenExpand(entries);
    if entries != [] {
      TotalPositive(entries);
    }
  }

  /** Every application but 0 keeps its range exactly when the lookup is not full; a full one loses every range. */
  lemma RangesSurvive(entries: seq<(AppId, nat)>, id: AppId)
    requires FromIdAndLen(entries).Ok? && id != 0
    ensures var l := FromIdAndLen(entries).value;
      && Expand(Compact(l)).Ok?
      && Expand(Compact(l)).value.RangeOf(id) == if Total(entries) < U32_MAX then l.RangeOf(id) else None
  {
    FromIdAndLenCorrect(entries);
    CompactThenExpand(entries);
    var l := FromIdAndLen(entries).value;
    assert ([(0, Range(0, 0))] + l.index)[1..] == l.index;
    assert FindRange(ERROR_LOOKUP.index[1..], id) == None;
  }

  /** One application with as many cells as 32 bits allow has a range, and none after the round trip. */
  lemma FullIndexLosesRange()
    ensures var l := FromIdAndLen([(1, U32_MAX)]);
      && l == Ok(DataLookup([(1, Range(0, U32_MAX))])) && l.value.RangeOf(1) == Some(Range(0, U32_MAX))
      && Expand(Compact(l.value)) == Ok(ERROR_LOOKUP) && ERROR_LOOKUP.RangeOf(1) == None
  {
    var entries: seq<(AppId, nat)> := [(1, U32_MAX)];
    var index: seq<Entry> := [(1, Range(0, U32_MAX))];
    assert entries[1..] == [] && IndexFrom([], Some(1), U32_MAX) == Ok([]);
    assert index + [] == index && FromIdAndLen(entries) == Ok(DataLookup(index));
    assert FindRange(ERROR_LOOKUP.index[1..], 1) == None;
    hide FromIdAndLen, Expand, Compact;
    CompactThenExpand(entries);
  }

  /** The error index is compacted to a size of zero with one item, and expanded from it. */
  lemma ErrorIsFixed()
    ensures Compact(DataLookup([(0, Range(0, 0))])) == CompactDataLookup(0, [Item(0, 0)])
    ensures Expand(CompactDataLookup(0, [Item(0, 0)])) == Ok(DataLookup([(0, Range(0, 0))]))
  {}
}
