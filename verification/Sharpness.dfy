/** Half of the rows is what it takes: fewer readable rows of an extended column belong to several columns, and no
    answer of `reconstruct_column` (kate/recovery/src/com.rs) is right for all of them. */
module Sharpness {
  import opened Results
  import opened Bytes
  import opened Field
  import opened Poly
  import opened Domain
  import opened Powers2
  import opened Matrix
  import opened Extend
  import opened PolyReconstruction
  import opened PolyReconstructionCorrect
  import opened Recovery
  import opened RecoveryCorrect

  /** The positions below n that hold something, in ascending order. */
  function Filled(subset: seq<Option<Scalar>>, n: nat): (f: seq<nat>)
    requires n <= |subset|
    ensures forall i :: i in f <==> 0 <= i < n && subset[i].Some?
    ensures |f| + |Missing(subset, n)| == n
  {
    if n == 0 then []
    else if subset[n - 1].Some? then Filled(subset, n - 1) + [n - 1]
    else Filled(subset, n - 1)
  }

  /** How many rows of a column can be read from a list of cells: repeated rows count once, unreadable ones not. */
  function ReadableRows(cells: seq<DataCell>, rowCount: nat): nat {
    |Filled(SubsetOf(cells, rowCount), rowCount)|
  }

  ghost predicate HasDomains(n: nat) {
    IsPow2(n) && 2 * n <= U32_MAX && NewDomain(n).Some? && NewDomain(2 * n).Some?
  }

  /** The column of n data cells, extended to 2 n rows. */
  function Extended(n: nat, data: seq<Scalar>): seq<Scalar>
    requires NewDomain(n).Some? && NewDomain(2 * n).Some?
  {
    ExtendColumn(NewDomain(n).value, NewDomain(2 * n).value, data)
  }

  /** Every present entry is the one of the extended column. */
  ghost predicate Agrees(subset: seq<Option<Scalar>>, extended: seq<Scalar>) {
    && |subset| == |extended|
    && forall i :: 0 <= i < |subset| && subset[i].Some? ==> subset[i].value == extended[i]
  }

  /** A column of n data cells whose extension has what the cells say in every readable row. */
  ghost predicate Fits(n: nat, cells: seq<DataCell>, data: seq<Scalar>)
    requires HasDomains(n)
  {
    |data| == n && Agrees(SubsetOf(cells, 2 * n), Extended(n, data))
  }

  // ---------- A polynomial that vanishes on fewer than n points ----------

  lemma VanishingPolynomial(w: Scalar, rows: seq<nat>, n: nat) returns (c: seq<Scalar>)
    requires PrimeModulus() && |rows| < n
    ensures |c| == n && c[|rows|] == 1 && forall k :: 0 <= k < |rows| ==> Eval(c, Pow(w, rows[k])) == 0
  {
    var roots := seq(|rows|, k requires 0 <= k < |rows| => Pow(w, rows[k]));
    var z := MulRoots([1], roots);
    LeadingCoefficient(roots);
    c := Resize(z, n);
    hide Eval, MulRoots;
    forall k | 0 <= k < |rows|
      ensures Eval(c, Pow(w, rows[k])) == 0
    {
      assert roots[k] == Pow(w, rows[k]);
      RootsAreExactlyTheZeros(roots, roots[k]);
      EvalResize(z, n, roots[k]);
    }
  }

  lemma PlusOneDiffers(a: Scalar)
    ensures Add(a, 1) != a
  {}

  lemma PlusDiffers(p: seq<Scalar>, c: seq<Scalar>, i: nat)
    requires |p| == |c| && i < |c| && c[i] == 1
    ensures Plus(p, c) != p
  {
    PlusOneDiffers(p[i]);
    hide Add;
    assert Plus(p, c)[i] == Add(p[i], 1);
  }

  lemma ExtendedAt(n: nat, data: seq<Scalar>, i: nat)
    requires PrimeModulus() && HasDomains(n) && |data| == n && i < 2 * n
    ensures |Extended(n, data)| == 2 * n && |Ifft(NewDomain(n).value, data)| == n
    ensures Extended(n, data)[i] == Eval(Ifft(NewDomain(n).value, data), Pow(NewDomain(2 * n).value.gen, i))
  {
    hide NewDomain, Ifft, Eval, Pow, PrimeModulus, IsPow2, ExtendColumn;
    Extend2(n, data);
  }

  lemma SmallDomain(n: nat)
    requires HasDomains(n)
    ensures NewDomain(n).value.size == n && ValidDomain(NewDomain(n).value)
  {
    hide NewDomain, ValidDomain;
    DomainOfPow2(n);
    NewDomainIsValid(n);
  }

  /** With fewer than n entries there is a second column of n cells that the entries agree with. */
  lemma SecondColumn(n: nat, data: seq<Scalar>, subset: seq<Option<Scalar>>) returns (other: seq<Scalar>)
    requires PrimeModulus() && HasDomains(n) && |data| == n && |subset| == 2 * n
    requires Agrees(subset, Extended(n, data)) && |Filled(subset, 2 * n)| < n
    ensures |other| == n && other != data && Agrees(subset, Extended(n, other))
  {
    var rows := Filled(subset, 2 * n);
    SmallDomain(n);
    hide HasDomains, Ifft, Fft, Eval, Pow, PrimeModulus, Extended, Filled, NewDomain, ValidDomain, Plus;
    var small, w := NewDomain(n).value, NewDomain(2 * n).value.gen;
    var c := VanishingPolynomial(w, rows, n);
    var p := Ifft(small, data);
    ExtendedAt(n, data, 0);
    var q := Plus(p, c);
    other := Fft(small, q);
    IfftOfFft(small, q);
    PlusDiffers(p, c, |rows|);
    forall i | 0 <= i < 2 * n
      ensures |Extended(n, other)| == 2 * n
      ensures subset[i].Some? ==> Extended(n, other)[i] == Extended(n, data)[i]
    {
      ExtendedAt(n, data, i);
      ExtendedAt(n, other, i);
      EvalPlus(p, c, Pow(w, i));
      if subset[i].Some? {
        var k :| 0 <= k < |rows| && rows[k] == i;
        MulUnits(Eval(p, Pow(w, i)));
      }
    }
  }

  // ---------- Half is sharp ----------

  /** With at least n readable rows a column that fits is the answer. */
  lemma AnswersFitting(n: nat, cells: seq<DataCell>, data: seq<Scalar>)
    requires PrimeModulus() && HasDomains(n) && Fits(n, cells, data) && ReadableRows(cells, 2 * n) >= n
    ensures NewDomain(2 * n).value.size == 2 * n <= 0x1_0000_0000
    ensures Reconstruct(NewDomain(2 * n).value, SubsetOf(cells, 2 * n)) == Ok(data)
  {
    var subset, p := SubsetOf(cells, 2 * n), Ifft(NewDomain(n).value, data);
    hide NewDomain, Ifft, Eval, Pow, PrimeModulus, IsPow2, SubsetOf, Reconstruct, ExtendColumn, FindRow;
    Extend2(n, data);
    ReconstructFromSubset(n, data, subset, p);
  }

  /** The readable rows determine the data cells if and only if there are at least as many as data cells. */
  lemma RowsDetermineExactly(n: nat, cells: seq<DataCell>, data: seq<Scalar>)
    requires PrimeModulus() && HasDomains(n) && Fits(n, cells, data)
    ensures (forall other :: Fits(n, cells, other) ==> other == data) <==> ReadableRows(cells, 2 * n) >= n
  {
    if ReadableRows(cells, 2 * n) >= n {
      AnswersFitting(n, cells, data);
      forall other | Fits(n, cells, other)
        ensures other == data
      {
        AnswersFitting(n, cells, other);
      }
    } else {
      var other := SecondColumn(n, data, SubsetOf(cells, 2 * n));
      assert Fits(n, cells, other);
    }
  }

  /** What `reconstruct_column` answers to accepted cells of an extended column is right for every column that the cells
      belong to if and only if they have at least half of the rows, readable and distinct; the source counts the cells
      alone. */
  lemma HalfIsSharp(n: nat, cells: seq<DataCell>, data: seq<Scalar>)
    requires PrimeModulus() && HasDomains(n) && Fits(n, cells, data) && ColumnAccepted(2 * n, cells)
    ensures (forall other :: Fits(n, cells, other) ==> ReconstructColumn(2 * n, cells) == Ok(other)) <==>
      ReadableRows(cells, 2 * n) >= n
  {
    RowsDetermineExactly(n, cells, data);
    ColumnUnfolds(2 * n, cells);
    if ReadableRows(cells, 2 * n) >= n {
      forall other | Fits(n, cells, other)
        ensures ReconstructColumn(2 * n, cells) == Ok(other)
      {
        AnswersFitting(n, cells, other);
      }
    }
  }

  /** Two equal cells of the first of four rows. */
  function OneRowTwice(): seq<DataCell> {
    var cell := DataCell(Position(0, 0), ScalarToBytes(0));
    [cell, cell]
  }

  /** They are accepted and answered, although they have a single row of two, and the answer is wrong for a column that
      they belong to. */
  lemma OneRowIsAnswered() returns (data: seq<Scalar>)
    requires PrimeModulus()
    ensures HasDomains(2) && Fits(2, OneRowTwice(), data) && ReadableRows(OneRowTwice(), 4) == 1
    ensures ReconstructColumn(4, OneRowTwice()).Ok? && ReconstructColumn(4, OneRowTwice()) != Ok(data)
  {
    var cells := OneRowTwice();
    DomainExists(2);
    DomainExists(4);
    assert IsPow2(2);
    OneRowShape(cells);
    var zeros := [0, 0];
    hide NewDomain, Ifft, Eval, Pow, PrimeModulus, IsPow2, SubsetOf, ReconstructColumn, ExtendColumn, FindRow, Filled,
      ColumnAccepted, OneRowTwice;
    Extend2(2, zeros);
    assert Fits(2, cells, zeros);
    ColumnAnswersExactly(4, cells);
    HalfIsSharp(2, cells, zeros);
    data :| Fits(2, cells, data) && ReconstructColumn(4, cells) != Ok(data);
  }

  lemma RowOfTwo(cell: DataCell, i: nat)
    ensures FindRow([cell, cell], i) == if i == cell.position.row then ScalarFromBytes(cell.data) else None
  {
    hide ScalarFromBytes;
    var first := [cell];
    assert first[1..] == [] && FindRow(first, i) == if i == cell.position.row then ScalarFromBytes(cell.data) else None;
    assert [cell, cell][1..] == first;
  }

  lemma OneRowShape(cells: seq<DataCell>)
    requires cells == OneRowTwice()
    ensures ColumnAccepted(4, cells) && ReadableRows(cells, 4) == 1
    ensures SubsetOf(cells, 4) == [Some(0), None, None, None] && HasReadableCell(4, cells)
  {
    hide ScalarToBytes, FindRow, ScalarFromBytes, Filled;
    ScalarFromTo(0);
    forall i | 0 <= i < 4
      ensures FindRow(cells, i) == if i == 0 then Some(0) else None
    {
      RowOfTwo(cells[0], i);
    }
    var subset := SubsetOf(cells, 4);
    assert subset == [Some(0), None, None, None];
    assert FindRow(cells, 0).Some?;
    OneFilled(subset, 4);
  }

  lemma {:induction false} OneFilled(subset: seq<Option<Scalar>>, n: nat)
    requires 0 < n <= |subset| && subset[0].Some? && forall i :: 0 < i < n ==> subset[i].None?
    ensures Filled(subset, n) == [0]
  {
    if n > 1 {
      OneFilled(subset, n - 1);
    } else {
      assert Filled(subset, 0) == [];
    }
  }
}
