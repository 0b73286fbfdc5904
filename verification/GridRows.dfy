/** Column extension and application rows of an evaluation grid (kate/src/gridgen/core.rs), against the row and cell
    positions that light clients compute (kate/recovery/src/matrix.rs, kate/recovery/src/com.rs). */
module GridRows {
  import opened Results
  import opened Bytes
  import opened Field
  import opened Domain
  import opened Powers2
  import opened Division
  import opened DataLookup
  import opened Matrix
  import opened Sizing
  import opened Extend
  import opened PolyReconstructionCorrect
  import opened Recovery
  import opened Grid

  ghost predicate ValidGrid(g: EvaluationGrid) {
    |g.columns| == g.dims.cols && forall c :: 0 <= c < g.dims.cols ==> |g.columns[c]| == g.dims.rows
  }

  // ---------- Extending the columns ----------

  function ExtendEach(small: Domain, large: Domain, columns: seq<seq<Scalar>>): (e: seq<seq<Scalar>>)
    ensures |e| == |columns|
  {
    seq(|columns|, c requires 0 <= c < |columns| => ExtendColumn(small, large, columns[c]))
  }

  function ExtendColumns(g: EvaluationGrid, rowFactor: nz16): Result<EvaluationGrid, Error> {
    match g.dims.Extend(rowFactor, 1)
    case None => Err(CellLengthExceeded)
    case Some(ext) =>
      match (NewDomain(g.dims.rows), NewDomain(ext.rows))
      case (Some(small), Some(large)) =>
        if large.size != ext.rows then Err(DomainSizeInvalid)
        else Ok(EvaluationGrid(g.lookup, ext, ExtendEach(small, large, g.columns)))
      case _ => Err(DomainSizeInvalid)
  }

  /** `extend_columns`: an in-place inverse transform and a larger transform, column by column. */
  method ExtendAllColumns(g: EvaluationGrid, rowFactor: nz16) returns (r: Result<EvaluationGrid, Error>)
    ensures r == ExtendColumns(g, rowFactor)
  {
    hide Fft, Ifft, NewDomain;
    var ext := g.dims.Extend(rowFactor, 1);
    if ext == None { return Err(CellLengthExceeded); }
    var small, large := NewDomain(g.dims.rows), NewDomain(ext.value.rows);
    if small == None || large == None { return Err(DomainSizeInvalid); }
    if large.value.size != ext.value.rows { return Err(DomainSizeInvalid); }
    var columns := [];
    for c := 0 to |g.columns|
      invariant |columns| == c
      invariant forall k :: 0 <= k < c ==> columns[k] == ExtendColumn(small.value, large.value, g.columns[k])
    {
      var col := Ifft(small.value, g.columns[c]);
      col := Fft(large.value, col);
      columns := columns + [col];
    }
    assert columns == ExtendEach(small.value, large.value, g.columns);
    r := Ok(EvaluationGrid(g.lookup, ext.value, columns));
  }

  /** `extend_columns` accepts a grid if and only if the new height fits 16 bits and is a power of two. */
  lemma ExtendColumnsAcceptsExactly(g: EvaluationGrid, k: nz16)
    ensures ExtendColumns(g, k).Ok? <==> g.dims.rows * k < 0x1_0000 && IsPow2(g.dims.rows * k)
    ensures ExtendColumns(g, k).Err? ==>
      ExtendColumns(g, k) == Err(if g.dims.rows * k < 0x1_0000 then DomainSizeInvalid else CellLengthExceeded)
  {
    var size := g.dims.rows * k;
    MulLe(1, g.dims.rows, k);
    if size < 0x1_0000 {
      DomainExists(g.dims.rows);
      DomainExists(size);
      SizeOfDomain(size);
    }
    hide NewDomain, IsPow2, ExtendEach;
    assert g.dims.cols * 1 == g.dims.cols;
  }

  lemma {:induction false} FactorsOfPow2(a: nat, b: nat)
    requires IsPow2(a * b)
    ensures IsPow2(a) && IsPow2(b)
    decreases a + b
  {
    if a % 2 == 0 && a > 0 {
      MulTwice(a / 2, b);
      HalfOfPow2(a * b, a / 2 * b);
      FactorsOfPow2(a / 2, b);
      Pow2Doubles(a / 2);
    } else if b % 2 == 0 && b > 0 {
      MulTwice(b / 2, a);
      HalfOfPow2(a * b, a * (b / 2));
      FactorsOfPow2(a, b / 2);
      Pow2Doubles(b / 2);
    } else {
      OddProduct(a, b);
    }
  }

  lemma HalfOfPow2(n: nat, h: nat)
    requires IsPow2(n) && n == 2 * h
    ensures IsPow2(h)
  {}

  lemma OddProduct(a: nat, b: nat)
    requires IsPow2(a * b) && (a % 2 == 1 || a == 0) && (b % 2 == 1 || b == 0)
    ensures a == 1 && b == 1
  {
    ProductParity(a, b);
    ProductIsOne(a, b);
  }

  lemma ProductParity(a: nat, b: nat)
    ensures a == 0 || b == 0 ==> a * b == 0
    ensures a % 2 == 1 && b % 2 == 1 ==> (a * b) % 2 == 1
  {
    if a % 2 == 1 && b % 2 == 1 {
      OddTimesOdd(a / 2, b / 2);
    }
  }

  lemma OddTimesOdd(p: nat, q: nat)
    ensures ((2 * p + 1) * (2 * q + 1)) % 2 == 1
  {
    var h := 2 * (p * q) + p + q;
    assert (2 * p + 1) * (2 * q + 1) == 2 * h + 1;
    assert (2 * h + 1) % 2 == 1;
  }

  lemma ProductIsOne(a: nat, b: nat)
    ensures a * b == 1 ==> a == 1 && b == 1
  {
    if a > 1 && b > 0 {
      MulLe(2, a, b);
    }
  }

  /** An accepted extension keeps the lookup and the width, multiplies the height by k, and is a systematic low-degree
      code of every column. */
  lemma ExtendColumnsIsSystematic(g: EvaluationGrid, k: nz16)
    requires PrimeModulus() && ValidGrid(g) && ExtendColumns(g, k).Ok?
    ensures var e := ExtendColumns(g, k).value;
      && e.lookup == g.lookup && e.dims.rows == g.dims.rows * k && e.dims.cols == g.dims.cols && ValidGrid(e)
      && forall c :: 0 <= c < g.dims.cols ==> IsSystematic(e.columns[c], g.columns[c], k)
  {
    var e, n := ExtendColumns(g, k).value, g.dims.rows;
    AcceptedExtension(g, k);
    hide *;
    FactorsOfPow2(n, k);
    GeneratorOfExtension(n, k, n * k);
    var small, large := NewDomain(n).value, NewDomain(n * k).value;
    assert e.columns == ExtendEach(small, large, g.columns);
    ColumnLengths(g);
    forall c | 0 <= c < g.dims.cols
      ensures |e.columns[c]| == n * k && IsSystematic(e.columns[c], g.columns[c], k)
    {
      ExtendEachAt(small, large, g.columns, c);
      ColumnIsSystematic(n, k, n * k, g.columns[c]);
    }
    GridIsValid(e);
  }

  lemma AcceptedExtension(g: EvaluationGrid, k: nz16)
    requires ExtendColumns(g, k).Ok?
    ensures var e, n := ExtendColumns(g, k).value, g.dims.rows;
      && e.lookup == g.lookup && e.dims.rows == n * k && e.dims.cols == g.dims.cols
      && NewDomain(n).Some? && NewDomain(n * k).Some? && IsPow2(n * k)
      && e.columns == ExtendEach(NewDomain(n).value, NewDomain(n * k).value, g.columns)
  {
    hide IsPow2, NextPow2, Log2, ExtendEach;
    NextPow2IsLeast(g.dims.rows * k);
  }

  lemma ColumnLengths(g: EvaluationGrid)
    requires ValidGrid(g)
    ensures |g.columns| == g.dims.cols && forall c :: 0 <= c < g.dims.cols ==> |g.columns[c]| == g.dims.rows
  {}

  lemma GridIsValid(g: EvaluationGrid)
    requires |g.columns| == g.dims.cols && forall c :: 0 <= c < g.dims.cols ==> |g.columns[c]| == g.dims.rows
    ensures ValidGrid(g)
  {}

  lemma ExtendEachAt(small: Domain, large: Domain, columns: seq<seq<Scalar>>, c: nat)
    requires c < |columns|
    ensures ExtendEach(small, large, columns)[c] == ExtendColumn(small, large, columns[c])
  {}

  // ---------- The rows of an application ----------

  datatype AppRowError = OrigDimNotDivisible | IdNotFound(id: AppId)

  function RowOf(g: EvaluationGrid, y: nat): (r: seq<Scalar>)
    requires ValidGrid(g) && y < g.dims.rows
    ensures |r| == g.dims.cols
  {
    seq(g.dims.cols, c requires 0 <= c < g.dims.cols => g.columns[c][y])
  }

  /** Each index with its row; none as soon as an index is beyond the grid (`collect::<Option<_>>`). */
  function RowsAt(g: EvaluationGrid, ys: seq<nat>): Option<seq<(nat, seq<Scalar>)>>
    requires ValidGrid(g)
  {
    if ys == [] then Some([])
    else if ys[0] >= g.dims.rows then None
    else
      var rest :- RowsAt(g, ys[1..]);
      Some([(ys[0], RowOf(g, ys[0]))] + rest)
  }

  /** The rows, in a grid of the given dimensions, of the first and of the last cell of a range. */
  function FirstRow(dims: Dimensions, range: Range): nat {
    QuotientBounds(range.start, dims.cols);
    range.start / dims.cols
  }

  function LastRow(dims: Dimensions, range: Range): nat {
    QuotientBounds(if range.end == 0 then 0 else range.end - 1, dims.cols);
    (if range.end == 0 then 0 else range.end - 1) / dims.cols
  }

  function EveryNth(first: nat, last: nat, k: nat): seq<nat>
    requires k > 0
  {
    MulLe(0, first, k);
    MulLe(0, last, k);
    StepRange(first * k, last * k, k)
  }

  function AppRows(g: EvaluationGrid, id: AppId, maybeOrig: Option<Dimensions>)
    : Result<Option<seq<(nat, seq<Scalar>)>>, AppRowError>
    requires ValidGrid(g)
  {
    var orig := if maybeOrig.Some? then maybeOrig.value else g.dims;
    if !orig.Divides(g.dims) then Err(OrigDimNotDivisible) else
    match g.lookup.RangeOf(id)
    case None => Err(IdNotFound(id))
    case Some(range) =>
      DividesPositive(g.dims.rows, orig.rows);
      Ok(RowsAt(g, EveryNth(FirstRow(orig, range), LastRow(orig, range), g.dims.rows / orig.rows)))
  }

  /** The scalars of row y, in column order. */
  ghost predicate IsRow(row: seq<Scalar>, g: EvaluationGrid, y: nat)
    requires ValidGrid(g) && y < g.dims.rows
  {
    |row| == g.dims.cols && forall c :: 0 <= c < g.dims.cols ==> row[c] == g.columns[c][y]
  }

  /** The index of the i-th row asked for. */
  function NthRow(first: nat, k: nat, i: nat): nat {
    MulLe(0, first + i, k);
    (first + i) * k
  }

  /** Rows first * k to last * k in steps of k with their indices, none exactly when the last is beyond the grid. */
  ghost predicate RowsRead(got: Option<seq<(nat, seq<Scalar>)>>, g: EvaluationGrid, first: nat, last: nat, k: nat)
    requires ValidGrid(g)
  {
    && (got == None <==> first <= last && NthRow(last, k, 0) >= g.dims.rows)
    && (got.Some? ==> |got.value| == if first <= last then last - first + 1 else 0)
    && (got.Some? ==> forall i :: 0 <= i < |got.value| ==> IsNthRow(got.value[i], g, NthRow(first, k, i)))
  }

  ghost predicate IsNthRow(row: (nat, seq<Scalar>), g: EvaluationGrid, y: nat)
    requires ValidGrid(g)
  {
    y < g.dims.rows && row.0 == y && IsRow(row.1, g, y)
  }

  lemma RowsAtExactly(g: EvaluationGrid, first: nat, last: nat, k: nat)
    requires ValidGrid(g) && k > 0
    ensures RowsRead(RowsAt(g, EveryNth(first, last, k)), g, first, last, k)
  {
    hide EveryNth, RowsAt, RowOf, NthRow, IsNthRow, ValidGrid;
    var ys := EveryNth(first, last, k);
    NthRowOf(first, last, k, 0);
    if first <= last {
      NthRowOf(first, last, k, last - first);
      LastNthRow(first, last, k);
    }
    if first <= last && NthRow(last, k, 0) >= g.dims.rows {
      RowsAtFails(g, ys, last - first);
    } else {
      forall i | 0 <= i < |ys|
        ensures ys[i] < g.dims.rows && IsNthRow((ys[i], RowOf(g, ys[i])), g, NthRow(first, k, i))
      {
        NthRowOf(first, last, k, i);
        NthRowsAscend(first, last, k, i);
        RowIs(g, ys[i]);
      }
      RowsAtSucceeds(g, ys);
    }
  }

  lemma NthRowOf(first: nat, last: nat, k: nat, i: nat)
    requires k > 0
    ensures |EveryNth(first, last, k)| == if first <= last then last - first + 1 else 0
    ensures i < |EveryNth(first, last, k)| ==> EveryNth(first, last, k)[i] == NthRow(first, k, i)
  {
    EveryNthAt(first, last, k, i);
    hide EveryNth;
  }

  lemma LastNthRow(first: nat, last: nat, k: nat)
    requires first <= last
    ensures NthRow(first, k, last - first) == NthRow(last, k, 0)
  {
    assert first + (last - first) == last + 0;
  }

  lemma NthRowsAscend(first: nat, last: nat, k: nat, i: nat)
    requires first + i <= last
    ensures NthRow(first, k, i) <= NthRow(last, k, 0)
  {
    MulLe(first + i, last, k);
  }

  lemma RowIs(g: EvaluationGrid, y: nat)
    requires ValidGrid(g) && y < g.dims.rows
    ensures IsNthRow((y, RowOf(g, y)), g, y)
  {}

  /** `app_rows` for any index, any range and any original dimensions, its own when none are given: both errors in their
      order, and otherwise exactly the rows from the one of the first cell to the one of the last. */
  lemma AppRowsExactly(g: EvaluationGrid, id: AppId, maybeOrig: Option<Dimensions>)
    requires ValidGrid(g)
    ensures var rows, cols := g.dims.rows, g.dims.cols;
      var h, w := if maybeOrig.Some? then maybeOrig.value.rows else rows,
                  if maybeOrig.Some? then maybeOrig.value.cols else cols;
      var r := AppRows(g, id, maybeOrig);
      if cols % w != 0 || rows % h != 0 then r == Err(OrigDimNotDivisible) else
      match g.lookup.RangeOf(id)
      case None => r == Err(IdNotFound(id))
      case Some(range) =>
        && 0 <= range.start / w && 0 <= (if range.end == 0 then 0 else range.end - 1) / w && 0 < rows / h && r.Ok?
        && RowsRead(r.value, g, range.start / w, (if range.end == 0 then 0 else range.end - 1) / w, rows / h)
  {
    var orig := if maybeOrig.Some? then maybeOrig.value else g.dims;
    QuotientOfProduct(1, g.dims.rows);
    QuotientOfProduct(1, g.dims.cols);
    if orig.Divides(g.dims) && g.lookup.RangeOf(id).Some? {
      var range := g.lookup.RangeOf(id).value;
      DividesPositive(g.dims.rows, orig.rows);
      RowsAtExactly(g, FirstRow(orig, range), LastRow(orig, range), g.dims.rows / orig.rows);
    }
    hide FindRange, RowsAt, EveryNth, RowsRead;
  }

  lemma DividesPositive(a: nat, b: nat)
    requires 0 < b && 0 < a && a % b == 0
    ensures a / b > 0
  {
    QuotientBelow(a, b, 1);
  }

  lemma {:induction false} EveryNthAt(a: nat, b: nat, k: nat, i: nat)
    requires k > 0
    ensures |EveryNth(a, b, k)| == if a <= b then b - a + 1 else 0
    ensures i < |EveryNth(a, b, k)| ==> EveryNth(a, b, k)[i] == (a + i) * k
    decreases b - a + 1
  {
    assert (a + 1) * k == a * k + k;
    if a <= b {
      MulLe(a, b, k);
      EveryNthAt(a + 1, b, k, if i > 0 then i - 1 else 0);
    } else {
      MulLe(b + 1, a, k);
      assert (b + 1) * k == b * k + k;
    }
  }

  /** Row y holds cells of the range: it is even, and between the first and the last data row of the range. */
  ghost predicate IsRowOf(dims: Dimensions, range: Range, y: nat) {
    y == 2 * (y / 2) && FirstRow(dims, range) <= y / 2 <= LastRow(dims, range)
  }

  /** The rows are exactly those that some of the cells lies in. */
  ghost predicate RowsOfCells(rows: seq<nat>, cells: seq<Position>) {
    forall y: nat :: y in rows <==> exists p :: p in cells && p.row == y
  }

  ghost predicate RowsAscend(rows: seq<nat>) {
    forall i, j :: 0 <= i < j < |rows| ==> rows[i] < rows[j]
  }

  /** A range from which no row is derived without a cell: it is not empty, or it has no valid end, or its first row
      comes after its last. */
  predicate RowsAreFaithful(dims: Dimensions, range: Range) {
    || range.start < range.end || range.end == 0 || range.end > dims.Size()
    || 2 * (range.start / dims.cols) % 0x1_0000_0000 > 2 * ((range.end - 1) / dims.cols)
  }

  /** `app_specific_cells(..).unwrap_or_default()`. */
  function CellsOrNone(l: DataLookup, dims: Dimensions, id: AppId): seq<Position> {
    match AppSpecificCells(l, dims, id)
    case None => []
    case Some(cells) => cells
  }

  /** The rows a client asks for ascend, and they are the rows of the application's cells if and only if the range of
      the application, where it has one, derives no row without a cell. */
  lemma AppSpecificRowsExactly(l: DataLookup, dims: Dimensions, id: AppId)
    ensures RowsAscend(AppSpecificRows(l, dims, id))
    ensures RowsOfCells(AppSpecificRows(l, dims, id), CellsOrNone(l, dims, id)) <==>
      l.RangeOf(id) == None || RowsAreFaithful(dims, l.RangeOf(id).value)
  {
    if l.RangeOf(id).Some? {
      var range := l.RangeOf(id).value;
      if range.start < range.end <= dims.Size() {
        AppSpecificRowsCorrect(l, dims, id, range);
      } else {
        WithoutCells(l, dims, id, range);
      }
    } else {
      UnknownApp(l, dims, id);
    }
  }

  lemma UnknownApp(l: DataLookup, dims: Dimensions, id: AppId)
    requires l.RangeOf(id) == None
    ensures AppSpecificRows(l, dims, id) == [] && CellsOrNone(l, dims, id) == []
  {}

  lemma WithoutCells(l: DataLookup, dims: Dimensions, id: AppId, range: Range)
    requires l.RangeOf(id) == Some(range) && !(range.start < range.end <= dims.Size())
    ensures var rows := AppSpecificRows(l, dims, id);
      && CellsOrNone(l, dims, id) == [] && RowsAscend(rows)
      && (RowsOfCells(rows, []) <==> RowsAreFaithful(dims, range))
  {
    var rows := AppSpecificRows(l, dims, id);
    FaithfulUnfolds(dims, range);
    hide FindRange, RowsAreFaithful, Dimensions.ExtendedDataRow;
    if 0 < range.end <= dims.Size() {
      var first, last := dims.ExtendedDataRow(range.start), dims.ExtendedDataRow(range.end - 1);
      assert rows == StepRange(first, last, 2);
      StepRangeAscends(first, last, 2);
      if first <= last {
        assert first in rows;
      }
    }
  }

  lemma FaithfulUnfolds(dims: Dimensions, range: Range)
    ensures RowsAreFaithful(dims, range) <==>
      || range.start < range.end || range.end == 0 || range.end > dims.Size()
      || dims.ExtendedDataRow(range.start) > dims.ExtendedDataRow(range.end - 1)
  {
    if 0 < range.end <= dims.Size() {
      dims.RowInRange(range.end - 1);
    }
  }

  lemma AscendsFrom(first: nat, rest: seq<nat>)
    requires RowsAscend(rest) && forall y :: y in rest ==> first < y
    ensures RowsAscend([first] + rest)
  {
    assert forall i :: 0 <= i < |rest| ==> rest[i] in rest;
  }

  lemma {:induction false} StepRangeAscends(first: nat, last: nat, step: nat)
    requires step > 0
    ensures RowsAscend(StepRange(first, last, step))
    ensures forall y :: y in StepRange(first, last, step) ==> y >= first
    ensures first <= last ==> first in StepRange(first, last, step)
    decreases last - first + step
  {
    if first <= last {
      var rest := StepRange(first + step, last, step);
      StepRangeAscends(first + step, last, step);
      AscendsFrom(first, rest);
      assert StepRange(first, last, step) == [first] + rest;
      hide StepRange, RowsAscend;
    }
  }

  /** A compact index whose second application starts where the first one does. */
  const TWO_AT_FIVE := CompactDataLookup(8, [Item(1, 5), Item(2, 5)])

  lemma TwoAtFiveExpands()
    ensures Expand(TWO_AT_FIVE) == Ok(DataLookup([(0, Range(0, 5)), (1, Range(5, 5)), (2, Range(5, 8))]))
  {
    var items := TWO_AT_FIVE.index;
    assert items[1..] == [Item(2, 5)] && items[1..][1..] == [];
    assert ExpandFrom([], 2, 5, 8) == [(2, Range(5, 8))];
    assert ExpandFrom(items[1..], 1, 5, 8) == [(1, Range(5, 5)), (2, Range(5, 8))];
    assert ExpandFrom(items, 0, 0, 8) == [(0, Range(0, 5)), (1, Range(5, 5)), (2, Range(5, 8))];
  }

  /** It gives that application an empty range in the middle of a row: a client asks for the row although the
      application has no cell. */
  lemma RowWithoutCell(dims: Dimensions)
    requires dims == Dimensions(2, 4)
    ensures Expand(TWO_AT_FIVE).Ok?
    ensures var l := Expand(TWO_AT_FIVE).value;
      && l.Len() == dims.Size() && l.RangeOf(1) == Some(Range(5, 5))
      && AppSpecificRows(l, dims, 1) == [2] && CellsOrNone(l, dims, 1) == []
  {
    TwoAtFiveExpands();
    var l := Expand(TWO_AT_FIVE).value;
    hide Expand;
    assert l.index[1..][0] == l.index[1];
    assert FindRange(l.index, 1) == FindRange(l.index[1..], 1) == Some(Range(5, 5));
    assert StepRange(2, 2, 2) == [2] + StepRange(4, 2, 2);
  }

  /** For a range of cells of the grid: strictly ascending, and exactly the rows that some cell lies in. */
  lemma AppSpecificRowsCorrect(l: DataLookup, dims: Dimensions, id: AppId, range: Range)
    requires l.RangeOf(id) == Some(range) && range.start < range.end <= dims.Size()
    ensures RowsAscend(AppSpecificRows(l, dims, id)) && AppSpecificCells(l, dims, id).Some?
    ensures RowsOfCells(AppSpecificRows(l, dims, id), CellsOrNone(l, dims, id))
  {
    hide FindRange, AppSpecificRows, AppSpecificCells, IsRowOf;
    AskedRowsAt(l, dims, id, range);
    CellsOfRange(l, dims, id, range);
    var cells := CellsOrNone(l, dims, id);
    forall y: nat
      ensures y in AppSpecificRows(l, dims, id) <==> exists p :: p in cells && p.row == y
    {
      RowIsAsked(l, dims, id, range, y);
      RowHasSomeCell(dims, range, y, cells);
    }
  }

  lemma CellsOfRange(l: DataLookup, dims: Dimensions, id: AppId, range: Range)
    requires l.RangeOf(id) == Some(range) && range.start < range.end <= dims.Size()
    ensures AppSpecificCells(l, dims, id).Some? && AppSpecificCells(l, dims, id) == dims.ExtendedDataPositions(range)
  {
    hide FindRange;
  }

  lemma AskedRowsAt(l: DataLookup, dims: Dimensions, id: AppId, range: Range)
    requires l.RangeOf(id) == Some(range) && range.start < range.end <= dims.Size()
    ensures var rows, first, last := AppSpecificRows(l, dims, id), FirstRow(dims, range), LastRow(dims, range);
      && first <= last && |rows| == last - first + 1
      && (forall i :: 0 <= i < |rows| ==> rows[i] == 2 * (first + i))
      && RowsAscend(rows)
  {
    FirstBeforeLast(dims, range);
    hide AppSpecificRows, FirstRow, LastRow, FindRange;
    ClientRows(l, dims, id, range);
  }

  lemma FirstBeforeLast(dims: Dimensions, range: Range)
    requires range.start < range.end
    ensures FirstRow(dims, range) <= LastRow(dims, range)
  {
    QuotientMonotone(range.start, range.end - 1, dims.cols);
  }

  lemma RowIsAsked(l: DataLookup, dims: Dimensions, id: AppId, range: Range, y: nat)
    requires l.RangeOf(id) == Some(range) && range.start < range.end <= dims.Size()
    ensures y in AppSpecificRows(l, dims, id) <==> IsRowOf(dims, range, y)
  {
    hide FindRange, AppSpecificRows;
    AskedRowsAt(l, dims, id, range);
    var rows := AppSpecificRows(l, dims, id);
    if IsRowOf(dims, range, y) {
      assert rows[y / 2 - FirstRow(dims, range)] == y;
    }
  }

  lemma RowHasSomeCell(dims: Dimensions, range: Range, y: nat, cells: seq<Position>)
    requires range.start < range.end <= dims.Size() && Some(cells) == dims.ExtendedDataPositions(range)
    ensures IsRowOf(dims, range, y) <==> exists p :: p in cells && p.row == y
  {
    if IsRowOf(dims, range, y) {
      RowHasCell(dims, range, y, cells);
    }
    if p :| p in cells && p.row == y {
      var k :| 0 <= k < |cells| && cells[k] == p;
      CellHasRow(dims, range, range.start + k);
    }
  }

  lemma CellHasRow(dims: Dimensions, range: Range, cell: u32)
    requires range.start <= cell < range.end <= dims.Size()
    ensures IsRowOf(dims, range, dims.ExtendedDataPosition(cell).row)
  {
    QuotientMonotone(range.start, cell, dims.cols);
    QuotientMonotone(cell, range.end - 1, dims.cols);
    hide Dimensions.ExtendedDataPosition;
    assert dims.ExtendedDataPosition(cell).row / 2 == cell / dims.cols;
  }

  lemma QuotientMonotone(a: nat, b: nat, d: nat)
    requires a <= b && d > 0
    ensures a / d <= b / d
  {
    QuotientBelow(b, d, a / d);
    QuotientBounds(a, d);
  }

  lemma RowHasCell(dims: Dimensions, range: Range, y: nat, cells: seq<Position>)
    requires range.start < range.end <= dims.Size() && Some(cells) == dims.ExtendedDataPositions(range)
    requires IsRowOf(dims, range, y)
    ensures exists p :: p in cells && p.row == y
  {
    var cell := FirstCellOfRow(range.start, range.end, dims.cols, y / 2);
    assert cells[cell - range.start] == dims.ExtendedDataPosition(cell);
  }

  /** The first cell of row q in a range: the first of the row, or of the range if that is later. */
  lemma FirstCellOfRow(start: nat, end: nat, cols: nat, q: nat) returns (cell: nat)
    requires cols > 0 && start < end && start / cols <= q <= (end - 1) / cols
    ensures start <= cell < end && cell / cols == q
  {
    cell := if q * cols >= start then q * cols else start;
    QuotientBelow(end - 1, cols, q);
    QuotientBelow(start, cols, q + 1);
    assert (q + 1) * cols == q * cols + cols;
    QuotientOf(cell, cols, q);
  }

  lemma {:induction false} RowsAtSucceeds(g: EvaluationGrid, ys: seq<nat>)
    requires ValidGrid(g) && forall i :: 0 <= i < |ys| ==> ys[i] < g.dims.rows
    ensures RowsAt(g, ys).Some? && |RowsAt(g, ys).value| == |ys|
    ensures forall i :: 0 <= i < |ys| ==> RowsAt(g, ys).value[i] == (ys[i], RowOf(g, ys[i]))
  {
    hide RowOf;
    if ys != [] {
      RowsAtSucceeds(g, ys[1..]);
    }
  }

  /** With the height multiplied by k, `app_rows` asks for every k-th row from the first to the last data row. */
  lemma AskedRows(e: EvaluationGrid, dims: Dimensions, k: nat, id: AppId, range: Range)
    requires ValidGrid(e) && k > 0 && e.dims.rows == dims.rows * k && e.dims.cols == dims.cols
    requires e.lookup.RangeOf(id) == Some(range)
    ensures AppRows(e, id, Some(dims)) == Ok(RowsAt(e, EveryNth(FirstRow(dims, range), LastRow(dims, range), k)))
  {
    MultipleDivides(dims, e.dims, k);
    hide FindRange, RowsAt, EveryNth, FirstRow, LastRow;
  }

  lemma MultipleDivides(small: Dimensions, large: Dimensions, k: nat)
    requires large.rows == small.rows * k && large.cols == small.cols
    ensures small.Divides(large) && large.rows / small.rows == k
  {
    QuotientOfProduct(k, small.rows);
    QuotientOfProduct(1, small.cols);
    assert large.rows == large.rows / small.rows * small.rows + large.rows % small.rows;
    assert k * small.rows == small.rows * k;
  }

  /** After an extension by any factor k, `app_rows` with the original dimensions returns exactly the original data rows
      of the application, from the one of its first cell to the one of its last, each at k times its index. */
  lemma AppRowsOfExtension(g: EvaluationGrid, k: nz16, id: AppId, range: Range)
    requires PrimeModulus() && ValidGrid(g) && ExtendColumns(g, k).Ok? && g.lookup.RangeOf(id) == Some(range)
    ensures var e, first := ExtendColumns(g, k).value, range.start / g.dims.cols;
      var last := (if range.end == 0 then 0 else range.end - 1) / g.dims.cols;
      && ValidGrid(e) && AppRows(e, id, Some(g.dims)).Ok?
      && var got := AppRows(e, id, Some(g.dims)).value;
      && (got == None <==> first <= last && g.dims.rows <= last)
      && (got.Some? ==> |got.value| == if first <= last then last - first + 1 else 0)
      && (got.Some? ==> forall i :: 0 <= i < |got.value| ==>
            && got.value[i].0 == (first + i) * k && 0 <= first + i < g.dims.rows
            && IsRow(got.value[i].1, g, first + i))
  {
    hide *;
    var e, first, last := ExtendColumns(g, k).value, FirstRow(g.dims, range), LastRow(g.dims, range);
    RowsUnfold(g.dims, range);
    ExtendColumnsIsSystematic(g, k);
    AskedRows(e, g.dims, k, id, range);
    var rows := EveryNth(first, last, k);
    EveryNthAt(first, last, k, 0);
    if first <= last && g.dims.rows <= last {
      EveryNthAt(first, last, k, last - first);
      MulLe(g.dims.rows, last, k);
      RowsAtFails(e, rows, last - first);
    } else {
      forall i | 0 <= i < |rows|
        ensures rows[i] == (first + i) * k && first + i < g.dims.rows && rows[i] < e.dims.rows
        ensures IsRow(RowOf(e, rows[i]), g, first + i)
      {
        EveryNthAt(first, last, k, i);
        ExtendedRow(g, e, k, first + i, rows[i]);
      }
      RowsAtSucceeds(e, rows);
    }
  }

  lemma RowsUnfold(dims: Dimensions, range: Range)
    ensures FirstRow(dims, range) == range.start / dims.cols
    ensures LastRow(dims, range) == (if range.end == 0 then 0 else range.end - 1) / dims.cols
  {}

  lemma {:induction false} RowsAtFails(g: EvaluationGrid, ys: seq<nat>, i: nat)
    requires ValidGrid(g) && i < |ys| && ys[i] >= g.dims.rows
    ensures RowsAt(g, ys) == None
  {
    hide RowOf;
    if i > 0 {
      RowsAtFails(g, ys[1..], i - 1);
    }
  }

  lemma ExtendedRow(g: EvaluationGrid, e: EvaluationGrid, k: nz16, y: nat, at: nat)
    requires ValidGrid(g) && ValidGrid(e) && g.dims.cols == e.dims.cols && e.dims.rows == g.dims.rows * k
    requires y < g.dims.rows
    requires at == y * k && forall c :: 0 <= c < g.dims.cols ==> IsSystematic(e.columns[c], g.columns[c], k)
    ensures at < e.dims.rows && IsRow(RowOf(e, at), g, y)
  {
    MulLe(y + 1, g.dims.rows, k);
    assert (y + 1) * k == y * k + k && y * k == k * y;
    hide IsEvaluation;
    forall c | 0 <= c < g.dims.cols
      ensures e.columns[c][at] == g.columns[c][y]
    {
      assert IsSystematic(e.columns[c], g.columns[c], k);
    }
  }

  /** The rows returned are at exactly the indices that a client asks for. */
  ghost predicate SameIndices(got: Option<seq<(nat, seq<Scalar>)>>, rows: seq<nat>) {
    got.Some? && |got.value| == |rows| && forall i :: 0 <= i < |rows| ==> got.value[i].0 == rows[i]
  }

  /** A range on which both sides agree: one that ends in the grid and whose rows are in order, or one that has no row
      on either side. */
  predicate BothSidesAgree(dims: Dimensions, range: Range) {
    if 0 < range.end <= dims.Size()
    then range.start / dims.cols <= (range.end - 1) / dims.cols
      || 2 * (range.start / dims.cols) % 0x1_0000_0000 > 2 * ((range.end - 1) / dims.cols)
    else range.start / dims.cols > (if range.end == 0 then 0 else range.end - 1) / dims.cols
  }

  /** On a grid extended by two, with any index, `app_rows` returns the rows that a client asks for if and only if the
      range ends in the grid with its rows in order, or has no row on either side. */
  lemma AppRowsAgree(g: EvaluationGrid, id: AppId, range: Range)
    requires PrimeModulus() && ValidGrid(g) && ExtendColumns(g, 2).Ok? && g.lookup.RangeOf(id) == Some(range)
    ensures var e := ExtendColumns(g, 2).value;
      && ValidGrid(e) && AppRows(e, id, Some(g.dims)).Ok?
      && (SameIndices(AppRows(e, id, Some(g.dims)).value, AppSpecificRows(g.lookup, g.dims, id)) <==>
            BothSidesAgree(g.dims, range))
  {
    hide *;
    var rows := AppSpecificRows(g.lookup, g.dims, id);
    RowsUnfold(g.dims, range);
    AppRowsOfExtension(g, 2, id, range);
    var got := AppRows(ExtendColumns(g, 2).value, id, Some(g.dims)).value;
    SidesUnfold(g.dims, range);
    SameIndicesUnfold(got, rows);
    if 0 < range.end <= g.dims.Size() {
      LastRowInGrid(g.dims, range);
      ClientRows(g.lookup, g.dims, id, range);
    } else {
      NoClientRows(g.lookup, g.dims, id, range);
    }
  }

  lemma SidesUnfold(dims: Dimensions, range: Range)
    ensures BothSidesAgree(dims, range) <==>
      if 0 < range.end <= dims.Size()
      then FirstRow(dims, range) <= LastRow(dims, range)
        || dims.ExtendedDataRow(range.start) > dims.ExtendedDataRow(range.end - 1)
      else FirstRow(dims, range) > LastRow(dims, range)
  {
    RowsUnfold(dims, range);
    if 0 < range.end <= dims.Size() {
      LastRowInGrid(dims, range);
    }
    hide FirstRow, LastRow;
  }

  lemma SameIndicesUnfold(got: Option<seq<(nat, seq<Scalar>)>>, rows: seq<nat>)
    ensures SameIndices(got, rows) <==>
      got.Some? && |got.value| == |rows| && forall i :: 0 <= i < |rows| ==> got.value[i].0 == rows[i]
  {}

  lemma LastRowInGrid(dims: Dimensions, range: Range)
    requires 0 < range.end <= dims.Size()
    ensures LastRow(dims, range) < dims.rows && dims.ExtendedDataRow(range.end - 1) == 2 * LastRow(dims, range)
  {
    dims.RowInRange(range.end - 1);
  }

  lemma ClientRows(l: DataLookup, dims: Dimensions, id: AppId, range: Range)
    requires l.RangeOf(id) == Some(range) && 0 < range.end <= dims.Size()
    ensures var rows, first, last := AppSpecificRows(l, dims, id), FirstRow(dims, range), LastRow(dims, range);
      && (first <= last ==> |rows| == last - first + 1 && forall i :: 0 <= i < |rows| ==> rows[i] == (first + i) * 2)
      && (first > last ==>
            (rows == [] <==> dims.ExtendedDataRow(range.start) > dims.ExtendedDataRow(range.end - 1)))
  {
    hide *;
    var rows, first, last := AppSpecificRows(l, dims, id), FirstRow(dims, range), LastRow(dims, range);
    LastRowInGrid(dims, range);
    ClientRowsAre(l, dims, id, range);
    if first <= last {
      FirstRowInGrid(dims, range);
      assert rows == StepRange(first * 2, last * 2, 2);
      EveryNthUnfolds(first, last, 2);
      EveryNthAt(first, last, 2, 0);
      forall i | 0 <= i < |rows|
        ensures rows[i] == (first + i) * 2
      {
        EveryNthAt(first, last, 2, i);
      }
    } else {
      StepRangeEmpty(dims.ExtendedDataRow(range.start), dims.ExtendedDataRow(range.end - 1), 2);
    }
  }

  lemma ClientRowsAre(l: DataLookup, dims: Dimensions, id: AppId, range: Range)
    requires l.RangeOf(id) == Some(range) && 0 < range.end <= dims.Size()
    ensures AppSpecificRows(l, dims, id)
      == StepRange(dims.ExtendedDataRow(range.start), dims.ExtendedDataRow(range.end - 1), 2)
  {
    hide FindRange, StepRange, Dimensions.ExtendedDataRow;
  }

  lemma FirstRowInGrid(dims: Dimensions, range: Range)
    requires FirstRow(dims, range) < dims.rows
    ensures dims.ExtendedDataRow(range.start) == FirstRow(dims, range) * 2
  {
    QuotientBelow(range.start, dims.cols, dims.rows);
    dims.RowInRange(range.start);
  }

  lemma EveryNthUnfolds(first: nat, last: nat, k: nat)
    requires k > 0 && first * k >= 0 && last * k >= 0
    ensures EveryNth(first, last, k) == StepRange(first * k, last * k, k)
  {
    hide StepRange;
  }

  lemma StepRangeEmpty(first: nat, last: nat, step: nat)
    requires step > 0
    ensures StepRange(first, last, step) == [] <==> first > last
  {}

  lemma NoClientRows(l: DataLookup, dims: Dimensions, id: AppId, range: Range)
    requires l.RangeOf(id) == Some(range) && !(0 < range.end <= dims.Size())
    ensures AppSpecificRows(l, dims, id) == []
    ensures FirstRow(dims, range) <= LastRow(dims, range) && range.end > 0 ==> dims.rows <= LastRow(dims, range)
  {
    hide FindRange;
    if range.end > 0 {
      QuotientBelow(range.end - 1, dims.cols, dims.rows);
    }
  }
}
