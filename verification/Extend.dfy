/** Erasure coding of the matrix columns: `par_extend_data_matrix` (kate/src/com.rs) and the column step of
    `extend_columns` (kate/src/gridgen/core.rs). Matrices are held as their columns. */
module Extend {
  import opened Results
  import opened Bytes
  import opened Field
  import opened Poly
  import opened Domain
  import opened Generators
  import opened Powers2
  import opened Division
  import opened Matrix
  import opened Sizing
  import opened PolyReconstructionCorrect

  const ROW_EXTENSION: nz16 := 2
  const COL_EXTENSION: nz16 := 1

  function ChunksExact(s: seq<byte>): (c: seq<Chunk>)
    ensures |c| == |s| / 32
  {
    if |s| < 32 then [] else [s[..32]] + ChunksExact(s[32..])
  }

  /** `to_bls_scalar` on every chunk; none when one is not a canonical scalar. */
  function ToScalars(chunks: seq<Chunk>): (r: Option<seq<Scalar>>)
    ensures r.Some? ==> |r.value| == |chunks|
  {
    if chunks == [] then Some([]) else
    var first :- ScalarFromBytes(chunks[0]);
    var rest :- ToScalars(chunks[1..]);
    Some([first] + rest)
  }

  lemma CellIndex(rows: nat, cols: nat, r: nat, c: nat)
    requires r < rows && c < cols
    ensures 0 <= r * cols + c < rows * cols
  {
    MulLe(r + 1, rows, cols);
    assert (r + 1) * cols == r * cols + cols;
  }

  /** Column c of a row-major list of cells. */
  function ColumnOf(cells: seq<Scalar>, rows: nat, cols: nat, c: nat): (col: seq<Scalar>)
    requires c < cols && rows * cols <= |cells|
    ensures |col| == rows
  {
    seq(rows, r requires 0 <= r < rows => CellIndex(rows, cols, r, c); cells[r * cols + c])
  }

  /** Interpolate on the small domain, evaluate on the large one. */
  function ExtendColumn(d: Domain, extended: Domain, col: seq<Scalar>): (e: seq<Scalar>)
    ensures |e| == extended.size
  {
    Fft(extended, Ifft(d, col))
  }

  function ExtendFrom(d: Domain, extended: Domain, cells: seq<Scalar>, rows: nat, cols: nat, n: nat)
    : (m: seq<seq<Scalar>>)
    requires n <= cols && rows * cols <= |cells|
    ensures |m| == n
    ensures forall c :: 0 <= c < n ==> m[c] == ExtendColumn(d, extended, ColumnOf(cells, rows, cols, c))
  {
    seq(n, c requires 0 <= c < n => ExtendColumn(d, extended, ColumnOf(cells, rows, cols, c)))
  }

  /** All of `par_extend_data_matrix`. The panics are too few cells for the matrix and the debug assertion that an
      extended column has exactly the extended height. */
  function ExtendMatrix(dims: BlockDimensions, block: seq<byte>): Result<seq<seq<Scalar>>, Error> {
    match NewDimensions(dims.rows, dims.cols)
    case None => Err(ZeroDimension)
    case Some(m) =>
      match m.Extend(ROW_EXTENSION, COL_EXTENSION)
      case None => Err(InvalidDimensionExtension)
      case Some(ext) =>
        if |block| % 32 != 0 then Err(DimensionsMismatch) else
        match ToScalars(ChunksExact(block))
        case None => Err(CellLengthExceeded)
        case Some(cells) =>
          match NewDomain(ext.rows)
          case None => Err(InvalidDimensionExtension)
          case Some(large) =>
            match NewDomain(m.rows)
            case None => Err(DomainSizeInvalid)
            case Some(small) =>
              if |cells| < m.rows * m.cols || large.size != ext.rows then Err(Panic)
              else Ok(ExtendFrom(small, large, cells, m.rows, m.cols, m.cols))
  }

  /** `par_extend_data_matrix`, with the parallel iteration over the columns as a loop. */
  method ParExtendDataMatrix(dims: BlockDimensions, block: seq<byte>) returns (r: Result<seq<seq<Scalar>>, Error>)
    ensures r == ExtendMatrix(dims, block)
  {
    hide Fft, Ifft, ScalarFromBytes, NewDomain;
    var maybeDims := NewDimensions(dims.rows, dims.cols);
    if maybeDims == None { return Err(ZeroDimension); }
    var m := maybeDims.value;
    var maybeExt := m.Extend(ROW_EXTENSION, COL_EXTENSION);
    if maybeExt == None { return Err(InvalidDimensionExtension); }
    var ext := maybeExt.value;
    if |block| % 32 != 0 { return Err(DimensionsMismatch); }
    var scalars := ToScalars(ChunksExact(block));
    if scalars == None { return Err(CellLengthExceeded); }
    var large := NewDomain(ext.rows);
    if large == None { return Err(InvalidDimensionExtension); }
    var small := NewDomain(m.rows);
    if small == None { return Err(DomainSizeInvalid); }
    if |scalars.value| < m.rows * m.cols || large.value.size != ext.rows { return Err(Panic); }
    var columns := [];
    for c := 0 to m.cols
      invariant |columns| == c
      invariant forall k :: 0 <= k < c ==>
        columns[k] == ExtendColumn(small.value, large.value, ColumnOf(scalars.value, m.rows, m.cols, k))
    {
      var coeffs := Ifft(small.value, ColumnOf(scalars.value, m.rows, m.cols, c));
      columns := columns + [Fft(large.value, coeffs)];
    }
    assert columns == ExtendFrom(small.value, large.value, scalars.value, m.rows, m.cols, m.cols);
    r := Ok(columns);
  }

  // ---------- Extension is systematic ----------

  lemma {:induction false} Log2Product(n: nat, k: nat)
    requires IsPow2(n) && IsPow2(k)
    ensures IsPow2(n * k) && Log2(n * k) == Log2(n) + Log2(k)
  {
    if k == 1 {
      assert n * k == n;
    } else {
      Log2Product(n, k / 2);
      MulTwice(k / 2, n);
      var h := n * (k / 2);
      assert n * k == 2 * h && (2 * h) / 2 == h;
    }
  }

  /** The generator of the large domain, to the extension factor, is the generator of the small one. */
  lemma GeneratorOfExtension(n: nat, k: nat, size: nat)
    requires IsPow2(n) && IsPow2(k) && size == n * k && NewDomain(size).Some?
    ensures NewDomain(n).Some?
    ensures NewDomain(size).value.size == size && NewDomain(n).value.size == n
    ensures Pow(NewDomain(size).value.gen, k) == NewDomain(n).value.gen
  {
    hide *;
    var a, b := Log2(n), Log2(k);
    Log2Product(n, k);
    NewDomainOfPow2(size);
    NewDomainOfPow2(n);
    Log2IsInverse(k);
    RootSquares(a, b);
  }

  lemma RootSquares(a: nat, b: nat)
    requires a + b <= 32
    ensures Pow(SquareTimes(TWO_ADIC_ROOT, 32 - (a + b)), Pow2(b)) == SquareTimes(TWO_ADIC_ROOT, 32 - a)
  {
    hide *;
    SquareTimesAdd(TWO_ADIC_ROOT, 32 - (a + b), b);
    SquareTimesIsPow(SquareTimes(TWO_ADIC_ROOT, 32 - (a + b)), b);
  }

  lemma NewDomainOfPow2(n: nat)
    requires IsPow2(n)
    ensures NewDomain(n) == if Log2(n) > 32 then None else Some(Domain(n, SquareTimes(TWO_ADIC_ROOT, 32 - Log2(n))))
  {
    NextPow2OfPow2(n);
  }

  lemma ExtensionDomains(n: nat, k: nat, size: nat)
    requires IsPow2(n) && IsPow2(k) && size == n * k && NewDomain(size).Some?
    ensures k >= 1 && n <= size && NewDomain(n).Some?
    ensures NewDomain(size).value.size == size && NewDomain(n).value.size == n && ValidDomain(NewDomain(n).value)
    ensures Pow(NewDomain(size).value.gen, k) == NewDomain(n).value.gen
  {
    assert k >= 1;
    hide *;
    GeneratorOfExtension(n, k, size);
    NewDomainIsValid(n);
    SizeAtLeast(n, k, size);
  }

  lemma SizeAtLeast(n: nat, k: nat, size: nat)
    requires k >= 1 && size == n * k
    ensures n <= size
  {
    MulLe(1, k, n);
    assert k * n == n * k;
  }

  lemma ScaledIndex(n: nat, k: nat, size: nat, i: nat)
    requires i < n && k >= 1 && size == n * k
    ensures 0 <= k * i < size
  {
    MulLe(i + 1, n, k);
    assert (i + 1) * k == k * i + k;
  }

  /** Extending a column of n cells by a factor k: every k-th extended cell is the original one, and the column is the
      evaluation of one polynomial with n coefficients. */
  lemma ExtensionIsSystematic(n: nat, k: nat, size: nat, col: seq<Scalar>)
    requires PrimeModulus() && IsPow2(n) && IsPow2(k) && size == n * k && NewDomain(size).Some? && |col| == n
    ensures NewDomain(n).Some?
    ensures var small, large := NewDomain(n).value, NewDomain(size).value;
      var e, p := ExtendColumn(small, large, col), Ifft(small, col);
      && |p| == n && |e| == size
      && (forall i :: 0 <= i < size ==> e[i] == Eval(p, Pow(large.gen, i)))
      && (forall i :: 0 <= i < n ==> 0 <= k * i < size && e[k * i] == col[i])
  {
    hide *;
    ExtensionDomains(n, k, size);
    var small, large := NewDomain(n).value, NewDomain(size).value;
    FftOfIfft(small, col);
    ExtendedValues(small, large, col);
    forall i | 0 <= i < n
      ensures 0 <= k * i < size && ExtendColumn(small, large, col)[k * i] == col[i]
    {
      ScaledIndex(n, k, size, i);
      SystematicAt(small, large, col, k, i, k * i);
    }
  }

  lemma ExtendedValues(small: Domain, large: Domain, col: seq<Scalar>)
    requires small.size <= large.size
    ensures forall i :: 0 <= i < large.size ==>
      ExtendColumn(small, large, col)[i] == Eval(Ifft(small, col), Pow(large.gen, i))
  {
    hide Fft, Ifft, Eval;
    forall i | 0 <= i < large.size
      ensures ExtendColumn(small, large, col)[i] == Eval(Ifft(small, col), Pow(large.gen, i))
    {
      FftAt(large, Ifft(small, col), i);
    }
  }

  lemma SystematicAt(small: Domain, large: Domain, col: seq<Scalar>, k: nat, i: nat, j: nat)
    requires small.size <= large.size && i < small.size == |col| && j < large.size && j == k * i
    requires Pow(large.gen, k) == small.gen && Fft(small, Ifft(small, col)) == col
    ensures ExtendColumn(small, large, col)[j] == col[i]
  {
    hide Fft, Ifft, Eval;
    ExtendedValues(small, large, col);
    PowMul(large.gen, k, i);
    FftAt(small, Ifft(small, col), i);
  }

  // ---------- Whole matrices ----------

  /** The values of one polynomial with n coefficients at the powers of the root of unity. */
  ghost predicate IsEvaluation(values: seq<Scalar>, n: nat, size: nat) {
    exists p: seq<Scalar> :: |p| == n && IsEvaluationOf(values, p, size)
  }

  ghost predicate IsEvaluationOf(values: seq<Scalar>, p: seq<Scalar>, size: nat) {
    && 0 < size == |values|
    && forall i :: 0 <= i < size ==> values[i] == Eval(p, Pow(Root(size), i))
  }

  /** A column and its extension by k: every k-th cell is a cell of the column, and all cells are the evaluation of one
      polynomial with as many coefficients as the column has cells. */
  ghost predicate IsSystematic(extended: seq<Scalar>, col: seq<Scalar>, k: nat) {
    && IsEvaluation(extended, |col|, |col| * k)
    && forall i :: 0 <= i < |col| ==> 0 <= k * i < |extended| && extended[k * i] == col[i]
  }

  lemma SizeOfExtension(n: nat, k: nat, size: nat)
    requires IsPow2(n) && IsPow2(k) && size == n * k && NewDomain(size).Some?
    ensures 0 < size && NewDomain(size).value == Domain(size, Root(size))
  {
    hide *;
    Log2Product(n, k);
    DomainOfSize(size);
  }

  lemma ColumnIsSystematic(n: nat, k: nat, size: nat, col: seq<Scalar>)
    requires PrimeModulus() && IsPow2(n) && IsPow2(k) && size == n * k && |col| == n
    requires NewDomain(n).Some? && NewDomain(size).Some?
    ensures var e := ExtendColumn(NewDomain(n).value, NewDomain(size).value, col);
      |e| == size && IsSystematic(e, col, k)
  {
    hide Fft, Ifft, Eval, NewDomain, IsPow2, NextPow2, ExtendColumn, Root, Pow;
    ExtensionIsSystematic(n, k, size, col);
    SizeOfExtension(n, k, size);
    var e := ExtendColumn(NewDomain(n).value, NewDomain(size).value, col);
    assert IsEvaluationOf(e, Ifft(NewDomain(n).value, col), size);
  }

  function ChunkOf(block: seq<byte>, j: nat): Chunk
    requires j < |block| / 32
  {
    block[32 * j..32 * j + 32]
  }

  /** Every whole chunk of 32 bytes, the least significant first, is below the modulus. */
  ghost predicate AllCanonical(block: seq<byte>) {
    forall j :: 0 <= j < |block| / 32 ==> FromLe(ChunkOf(block, j)) < P
  }

  lemma {:induction false} ChunkAt(s: seq<byte>, j: nat)
    requires j < |s| / 32
    ensures ChunksExact(s)[j] == ChunkOf(s, j)
  {
    if j > 0 {
      ChunkAt(s[32..], j - 1);
      assert ChunkOf(s[32..], j - 1) == ChunkOf(s, j);
    }
  }

  lemma {:induction false} ToScalarsAt(chunks: seq<Chunk>)
    ensures ToScalars(chunks).Some? <==> forall i :: 0 <= i < |chunks| ==> FromLe(chunks[i]) < P
    ensures ToScalars(chunks).Some? ==>
      forall i :: 0 <= i < |chunks| ==> ToScalars(chunks).value[i] == FromLe(chunks[i])
  {
    hide FromLe;
    if chunks != [] {
      ToScalarsAt(chunks[1..]);
      assert forall i :: 0 <= i < |chunks| - 1 ==> chunks[1..][i] == chunks[i + 1];
      assert forall i :: 0 < i < |chunks| ==> chunks[i] == chunks[1..][i - 1];
    }
  }

  lemma ToScalarsExactly(block: seq<byte>)
    ensures ToScalars(ChunksExact(block)).Some? <==> AllCanonical(block)
    ensures ToScalars(ChunksExact(block)).Some? ==> forall j :: 0 <= j < |block| / 32 ==>
      ToScalars(ChunksExact(block)).value[j] == FromLe(ChunkOf(block, j))
  {
    hide FromLe, ToScalars, ChunksExact, ChunkOf;
    ToScalarsAt(ChunksExact(block));
    forall j | 0 <= j < |block| / 32
      ensures ChunksExact(block)[j] == ChunkOf(block, j)
    {
      ChunkAt(block, j);
    }
  }

  lemma DoubledDomain(n: nat)
    requires 0 < n && 2 * n < 0x1_0000
    ensures NewDomain(n).Some? && NewDomain(2 * n).Some? && (NewDomain(2 * n).value.size == 2 * n <==> IsPow2(n))
  {
    DomainExists(n);
    DomainExists(2 * n);
    TwicePow2(n);
    hide NewDomain, IsPow2;
    SizeOfDomain(2 * n);
  }

  lemma TwicePow2(n: nat)
    requires n > 0
    ensures IsPow2(2 * n) <==> IsPow2(n)
  {
    var m := 2 * n;
    assert m / 2 == n && m % 2 == 0 && m > 1;
  }

  ghost predicate FitsExtended(dims: BlockDimensions) {
    0 < dims.rows && 2 * dims.rows < 0x1_0000 && 0 < dims.cols < 0x1_0000
  }

  lemma UnfitDimensions(dims: BlockDimensions, block: seq<byte>)
    requires !FitsExtended(dims)
    ensures ExtendMatrix(dims, block).Err?
  {
    hide NewDomain, ToScalars, ChunksExact, ExtendFrom;
  }

  lemma FitDimensions(dims: BlockDimensions, block: seq<byte>)
    requires FitsExtended(dims) && NewDomain(dims.rows).Some? && NewDomain(2 * dims.rows).Some?
    ensures ExtendMatrix(dims, block).Ok? <==>
      && |block| % 32 == 0 && ToScalars(ChunksExact(block)).Some?
      && |ToScalars(ChunksExact(block)).value| >= dims.rows * dims.cols
      && NewDomain(2 * dims.rows).value.size == 2 * dims.rows
  {
    hide NewDomain, ToScalars, ChunksExact, ExtendFrom;
    assert NewDimensions(dims.rows, dims.cols).value.Extend(ROW_EXTENSION, COL_EXTENSION).value.rows == 2 * dims.rows;
  }

  /** `par_extend_data_matrix` accepts a block if and only if the extended dimensions are positive and fit 16 bits, the
      row count is a power of two, and the block is made of whole chunks, all of them scalars, enough for the matrix. */
  lemma ExtendAcceptsExactly(dims: BlockDimensions, block: seq<byte>)
    ensures ExtendMatrix(dims, block).Ok? <==>
      && FitsExtended(dims) && IsPow2(dims.rows)
      && |block| % 32 == 0 && AllCanonical(block) && dims.rows * dims.cols <= |block| / 32
  {
    ToScalarsExactly(block);
    if FitsExtended(dims) {
      DoubledDomain(dims.rows);
      hide NewDomain, ToScalars, ChunksExact, AllCanonical, IsPow2, ExtendMatrix, FitsExtended;
      FitDimensions(dims, block);
    } else {
      UnfitDimensions(dims, block);
    }
  }

  /** Why `par_extend_data_matrix` refuses, in the order of its checks. */
  lemma ExtendRefusesExactly(dims: BlockDimensions, block: seq<byte>)
    requires ExtendMatrix(dims, block).Err?
    ensures ExtendMatrix(dims, block)
      == Err(if !(0 < dims.rows < 0x1_0000 && 0 < dims.cols < 0x1_0000) then ZeroDimension
             else if 2 * dims.rows >= 0x1_0000 then InvalidDimensionExtension
             else if |block| % 32 != 0 then DimensionsMismatch
             else if !AllCanonical(block) then CellLengthExceeded else Panic)
  {
    ToScalarsExactly(block);
    if FitsExtended(dims) {
      DoubledDomain(dims.rows);
    }
    hide NewDomain, ToScalars, ChunksExact, AllCanonical, IsPow2, ExtendFrom;
  }

  /** Row 2 r of column c of the extended matrix is the chunk at row r and column c of the block. */
  lemma ExtendedMatrixHoldsBlock(dims: BlockDimensions, block: seq<byte>, r: nat, c: nat)
    requires PrimeModulus() && ExtendMatrix(dims, block).Ok? && r < dims.rows && c < dims.cols
    ensures var m, k := ExtendMatrix(dims, block).value, r * dims.cols + c;
      && |m| == dims.cols && |m[c]| == 2 * dims.rows && 0 <= 32 * k && 32 * k + 32 <= |block|
      && m[c][2 * r] == FromLe(block[32 * k..32 * k + 32])
  {
    ExtendedMatrixIsSystematic(dims, block);
    ToScalarsExactly(block);
    CellIndex(dims.rows, dims.cols, r, c);
    hide ExtendMatrix, ToScalars, ChunksExact, FromLe, IsEvaluation;
  }

  /** The scalars of a block, row by row. */
  function ScalarsOfBlock(block: seq<byte>): (s: seq<Scalar>)
    requires ToScalars(ChunksExact(block)).Some?
  {
    ToScalars(ChunksExact(block)).value
  }

  /** Every accepted block is extended by a systematic low-degree code in each of its columns. */
  lemma ExtendedMatrixIsSystematic(dims: BlockDimensions, block: seq<byte>)
    requires PrimeModulus() && ExtendMatrix(dims, block).Ok?
    ensures var m := ExtendMatrix(dims, block).value;
      && ToScalars(ChunksExact(block)).Some? && dims.rows * dims.cols <= |ScalarsOfBlock(block)| && |m| == dims.cols
      && forall c :: 0 <= c < dims.cols ==>
        |m[c]| == 2 * dims.rows && IsSystematic(m[c], ColumnOf(ScalarsOfBlock(block), dims.rows, dims.cols, c), 2)
  {
    var m, v := ExtendMatrix(dims, block).value, ScalarsOfBlock(block);
    ExtendAcceptsExactly(dims, block);
    DoubledDomain(dims.rows);
    assert IsPow2(2);
    ExtendMatrixUnfolds(dims, block);
    hide *;
    forall c | 0 <= c < dims.cols
      ensures |m[c]| == 2 * dims.rows && IsSystematic(m[c], ColumnOf(v, dims.rows, dims.cols, c), 2)
    {
      ColumnIsSystematic(dims.rows, 2, 2 * dims.rows, ColumnOf(v, dims.rows, dims.cols, c));
      assert dims.rows * 2 == 2 * dims.rows;
    }
  }

  lemma ExtendMatrixUnfolds(dims: BlockDimensions, block: seq<byte>)
    requires ExtendMatrix(dims, block).Ok? && 0 < dims.rows && 2 * dims.rows < 0x1_0000
    ensures NewDomain(dims.rows).Some? && NewDomain(2 * dims.rows).Some?
    ensures ToScalars(ChunksExact(block)).Some? && dims.rows * dims.cols <= |ScalarsOfBlock(block)|
    ensures var m := ExtendMatrix(dims, block).value;
      && |m| == dims.cols
      && forall c :: 0 <= c < dims.cols ==>
        m[c] == ExtendColumn(NewDomain(dims.rows).value, NewDomain(2 * dims.rows).value,
                             ColumnOf(ScalarsOfBlock(block), dims.rows, dims.cols, c))
  {
    hide NewDomain, ToScalars, ChunksExact, ColumnOf, ExtendColumn;
  }
}
