/** Grouping extrinsics by application: a stable sort and consecutive grouping (kate/src/com.rs) on one side, a
    `BTreeMap` (kate/src/gridgen/core.rs) on the other. */
module Grouping {
  import opened Bytes
  import opened DataLookup
  import opened OrderedMap
  import opened Sorting

  datatype AppExtrinsic = AppExtrinsic(appId: AppId, data: seq<byte>)

  type Group = (AppId, seq<seq<byte>>)

  /** The data of one application in submission order. */
  function DataOf(xs: seq<AppExtrinsic>, id: AppId): seq<seq<byte>> {
    if xs == [] then [] else
    var last := xs[|xs| - 1];
    DataOf(xs[..|xs| - 1], id) + if last.appId == id then [last.data] else []
  }

  /** Ids strictly ascend and no group is empty. */
  ghost predicate Ordered(groups: seq<Group>) {
    KeysAscend(groups) && NoneEmpty(groups)
  }

  /** What grouping means: every application that occurs, once, in ascending order, with exactly its own data in
      submission order. */
  ghost predicate IsGrouping(groups: seq<Group>, xs: seq<AppExtrinsic>) {
    Ordered(groups) && forall id: AppId :: Lookup(groups, id) == DataOf(xs, id)
  }

  // ---------- Stable sort and consecutive grouping ----------

  predicate LowerId(a: AppExtrinsic, b: AppExtrinsic) {
    a.appId < b.appId
  }

  /** The stable `sort_by` on the application id. */
  function Sorted(xs: seq<AppExtrinsic>): seq<AppExtrinsic> {
    Sort(LowerId, xs)
  }

  function AddToLast(acc: seq<Group>, e: AppExtrinsic): seq<Group> {
    if acc != [] && acc[|acc| - 1].0 == e.appId
    then acc[|acc| - 1 := (e.appId, acc[|acc| - 1].1 + [e.data])]
    else acc + [(e.appId, [e.data])]
  }

  function GroupConsecutive(xs: seq<AppExtrinsic>): seq<Group> {
    if xs == [] then [] else AddToLast(GroupConsecutive(xs[..|xs| - 1]), xs[|xs| - 1])
  }

  /** `app_extrinsics_group_by_app_id`: a fold that pushes onto the last group or opens a new one. */
  method AppExtrinsicsGroupByAppId(extrinsics: seq<AppExtrinsic>) returns (acc: seq<Group>)
    ensures acc == GroupConsecutive(extrinsics)
  {
    acc := [];
    for i := 0 to |extrinsics|
      invariant acc == GroupConsecutive(extrinsics[..i])
    {
      var e := extrinsics[i];
      assert extrinsics[..i + 1][..i] == extrinsics[..i];
      var last := |acc| - 1;
      if acc != [] && acc[last].0 == e.appId {
        acc := acc[last := (acc[last].0, acc[last].1 + [e.data])];
      } else {
        acc := acc + [(e.appId, [e.data])];
      }
    }
    assert extrinsics[..|extrinsics|] == extrinsics;
  }

  function Grouped(xs: seq<AppExtrinsic>): seq<Group> {
    GroupConsecutive(Sorted(xs))
  }

  // ---------- Grouping through an ordered map ----------

  function GroupedByMap(xs: seq<AppExtrinsic>): seq<Group> {
    if xs == [] then [] else
    Append(GroupedByMap(xs[..|xs| - 1]), xs[|xs| - 1].appId, [xs[|xs| - 1].data])
  }

  /** The fold at the head of `from_extrinsics`. */
  method FoldIntoMap(extrinsics: seq<AppExtrinsic>) returns (acc: seq<Group>)
    ensures acc == GroupedByMap(extrinsics)
  {
    acc := [];
    for i := 0 to |extrinsics|
      invariant acc == GroupedByMap(extrinsics[..i])
    {
      assert extrinsics[..i + 1][..i] == extrinsics[..i];
      acc := Append(acc, extrinsics[i].appId, [extrinsics[i].data]);
    }
    assert extrinsics[..|extrinsics|] == extrinsics;
  }

  // ---------- The meaning fixes the result ----------

  lemma OrderOfGrouping(groups: seq<Group>, xs: seq<AppExtrinsic>)
    requires IsGrouping(groups, xs)
    ensures Ordered(groups)
  {}

  lemma {:induction false} DataOfConcat(a: seq<AppExtrinsic>, b: seq<AppExtrinsic>, id: AppId)
    ensures DataOf(a + b, id) == DataOf(a, id) + DataOf(b, id)
  {
    if b == [] {
      assert a + b == a;
    } else {
      var front := b[..|b| - 1];
      assert (a + b)[..|a + b| - 1] == a + front;
      DataOfConcat(a, front, id);
    }
  }

  /** Two groupings of the same extrinsics are the same list. */
  lemma GroupingIsUnique(g: seq<Group>, h: seq<Group>, xs: seq<AppExtrinsic>)
    requires IsGrouping(g, xs) && IsGrouping(h, xs)
    ensures g == h
  {
    forall id: AppId
      ensures Lookup(g, id) == Lookup(h, id)
    {
      assert Lookup(g, id) == DataOf(xs, id);
    }
    LookupDetermines(g, h);
  }

  // ---------- The first builder groups ----------

  ghost predicate IsSorted(s: seq<AppExtrinsic>) {
    forall i, j :: 0 <= i < j < |s| ==> s[i].appId <= s[j].appId
  }

  lemma {:induction false} InsertKeepsData(x: AppExtrinsic, s: seq<AppExtrinsic>, id: AppId)
    ensures DataOf(Insert(LowerId, x, s), id) == DataOf([x] + s, id)
  {
    hide DataOf;
    if !(s == [] || x.appId <= s[0].appId) {
      var y, t := s[0], s[1..];
      InsertKeepsData(x, t, id);
      DataOfConcat([y], Insert(LowerId, x, t), id);
      DataOfConcat([x], t, id);
      DataOfConcat([x], s, id);
      DataOfConcat([y], t, id);
      assert s == [y] + t;
      DataOfSingle(x, id);
      DataOfSingle(y, id);
      assert DataOf([x], id) == [] || DataOf([y], id) == [];
    }
  }

  lemma DataOfSingle(x: AppExtrinsic, id: AppId)
    ensures DataOf([x], id) == if x.appId == id then [x.data] else []
  {
    assert [x][..0] == [];
  }

  lemma {:induction false} SortKeepsData(xs: seq<AppExtrinsic>, id: AppId)
    ensures DataOf(Sorted(xs), id) == DataOf(xs, id)
  {
    hide DataOf;
    if xs != [] {
      SortKeepsData(xs[1..], id);
      InsertKeepsData(xs[0], Sorted(xs[1..]), id);
      DataOfConcat([xs[0]], Sorted(xs[1..]), id);
      DataOfConcat([xs[0]], xs[1..], id);
      assert xs == [xs[0]] + xs[1..];
    }
  }

  /** The sort orders by id, loses nothing, and keeps every application's data in submission order. */
  lemma SortedIsStable(xs: seq<AppExtrinsic>)
    ensures IsSorted(Sorted(xs))
    ensures forall x :: x in Sorted(xs) <==> x in xs
    ensures forall id: AppId :: DataOf(Sorted(xs), id) == DataOf(xs, id)
  {
    assert IsOrder(LowerId);
    SortOrders(LowerId, xs);
    forall id: AppId
      ensures DataOf(Sorted(xs), id) == DataOf(xs, id)
    {
      SortKeepsData(xs, id);
    }
  }

  lemma LookupSingle(g: Group, id: AppId)
    ensures Lookup([g], id) == if g.0 == id then g.1 else []
  {
    assert Lookup([g][1..], id) == [];
  }

  lemma {:induction false} AddToLastAt(acc: seq<Group>, e: AppExtrinsic, id: AppId)
    requires Ordered(acc) && (acc != [] ==> acc[|acc| - 1].0 <= e.appId)
    ensures Lookup(AddToLast(acc, e), id) == Lookup(acc, id) + if id == e.appId then [e.data] else []
  {
    if acc == [] {
      LookupSingle((e.appId, [e.data]), id);
    } else if |acc| == 1 {
      AddToSingle(acc, e, id);
    } else {
      assert acc[0].0 < acc[|acc| - 1].0;
      KeysOfTail(acc, id);
      AddToLastAt(acc[1..], e, id);
      assert AddToLast(acc, e)[1..] == AddToLast(acc[1..], e);
      assert AddToLast(acc, e)[0] == acc[0];
      hide AddToLast, Ordered;
    }
  }

  lemma AddToSingle(acc: seq<Group>, e: AppExtrinsic, id: AppId)
    requires |acc| == 1 && acc[0].0 <= e.appId
    ensures Lookup(AddToLast(acc, e), id) == Lookup(acc, id) + if id == e.appId then [e.data] else []
  {
    LookupSingle(acc[0], id);
    assert acc == [acc[0]];
    if acc[0].0 == e.appId {
      LookupSingle((e.appId, acc[0].1 + [e.data]), id);
      assert AddToLast(acc, e) == [(e.appId, acc[0].1 + [e.data])];
    } else {
      LookupSingle((e.appId, [e.data]), id);
      assert AddToLast(acc, e)[1..] == [(e.appId, [e.data])];
    }
  }

  lemma AddToLastOrdered(acc: seq<Group>, e: AppExtrinsic)
    requires Ordered(acc) && (acc != [] ==> acc[|acc| - 1].0 <= e.appId)
    ensures Ordered(AddToLast(acc, e)) && AddToLast(acc, e) != []
    ensures AddToLast(acc, e)[|AddToLast(acc, e)| - 1].0 == e.appId
  {}

  lemma {:induction false} ConsecutiveGroupsAreGroups(s: seq<AppExtrinsic>)
    requires IsSorted(s)
    ensures IsGrouping(GroupConsecutive(s), s)
    ensures s == [] ==> GroupConsecutive(s) == []
    ensures s != [] ==>
      GroupConsecutive(s) != [] && GroupConsecutive(s)[|GroupConsecutive(s)| - 1].0 == s[|s| - 1].appId
  {
    if s != [] {
      var front, e := s[..|s| - 1], s[|s| - 1];
      ConsecutiveGroupsAreGroups(front);
      var acc := GroupConsecutive(front);
      assert front != [] ==> front[|front| - 1].appId <= e.appId;
      hide AddToLast, Lookup, Ordered;
      AddToLastOrdered(acc, e);
      forall id: AppId
        ensures Lookup(AddToLast(acc, e), id) == DataOf(s, id)
      {
        assert Lookup(acc, id) == DataOf(front, id);
        AddToLastAt(acc, e, id);
      }
    }
  }

  /** Sorting and grouping consecutive extrinsics gives the grouping of the original list. */
  lemma GroupedIsGrouping(xs: seq<AppExtrinsic>)
    ensures IsGrouping(Grouped(xs), xs)
  {
    SortedIsStable(xs);
    ConsecutiveGroupsAreGroups(Sorted(xs));
  }

  // ---------- The second builder groups ----------

  lemma {:induction false} AppendNoneEmpty(m: seq<Group>, id: AppId, data: seq<byte>)
    requires NoneEmpty(m)
    ensures NoneEmpty(Append(m, id, [data]))
  {
    if m != [] && m[0].0 < id {
      AppendNoneEmpty(m[1..], id, data);
    }
  }

  lemma {:induction false} MapGroupsAreGroups(xs: seq<AppExtrinsic>)
    ensures IsGrouping(GroupedByMap(xs), xs)
  {
    if xs != [] {
      var front, e := xs[..|xs| - 1], xs[|xs| - 1];
      MapGroupsAreGroups(front);
      AppendKeys(GroupedByMap(front), e.appId, [e.data]);
      AppendNoneEmpty(GroupedByMap(front), e.appId, e.data);
      forall id: AppId
        ensures Lookup(GroupedByMap(xs), id) == DataOf(xs, id)
      {
        assert Lookup(GroupedByMap(front), id) == DataOf(front, id);
        AppendAt(GroupedByMap(front), e.appId, [e.data], id);
      }
    }
  }

  /** The two builders group alike. */
  lemma GroupingsAgree(xs: seq<AppExtrinsic>)
    ensures GroupedByMap(xs) == Grouped(xs)
  {
    GroupedIsGrouping(xs);
    MapGroupsAreGroups(xs);
    GroupingIsUnique(GroupedByMap(xs), Grouped(xs), xs);
  }
}
