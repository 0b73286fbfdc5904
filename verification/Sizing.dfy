/** The two functions that choose the size of a block: `get_block_dimensions` (kate/src/com.rs) from a byte count and
    `get_block_dims` (kate/src/gridgen/core.rs) from a cell count. */
module Sizing {
  import opened Results
  import opened Bytes
  import opened DataLookup
  import opened Matrix
  import opened Powers2
  import opened Division

  /** The errors of the block builders. `Panic` stands for an unwinding `expect` or an overlong list in the codec. */
  datatype Error =
    | BlockTooBig
    | InvalidMaxRows
    | InvalidMaxCols
    | ZeroDimension
    | InvalidDataLookup(lookupError: LookupError)
    | InvalidChunkLength
    | MultiproofError
    | CellLengthExceeded
    | DimensionsMismatch
    | InvalidDimensionExtension
    | DomainSizeInvalid
    | Panic

  const MINIMUM_BLOCK_SIZE: nat := 128
  const U64_MAX: u64 := 0xffff_ffff_ffff_ffff

  function Max(a: int, b: int): int { if a >= b then a else b }

  datatype BlockDimensions = BlockDimensions(rows: u32, cols: u32, size: u32)

  /** `BlockDimensions::new` for chunks of 32 bytes: none when a 32-bit product overflows. */
  function NewBlockDimensions(rows: u32, cols: u32): Option<BlockDimensions> {
    if 0 <= rows * cols <= U32_MAX && rows * cols * CHUNK_SIZE <= U32_MAX
    then Some(BlockDimensions(rows, cols, rows * cols * CHUNK_SIZE))
    else None
  }

  /** One row unless the cells exceed the columns. */
  function ShapeOf(cells: u32, maxCols: u32): Option<BlockDimensions>
    requires maxCols > 0
  {
    QuotientBounds(cells, maxCols);
    if cells > maxCols then NewBlockDimensions(cells / maxCols, maxCols) else NewBlockDimensions(1, cells)
  }

  function GetBlockDimensions(blockSize: u32, maxRows: u32, maxCols: u32): Result<BlockDimensions, Error> {
    if !IsPow2(maxRows) then Err(InvalidMaxRows)
    else if !IsPow2(maxCols) then Err(InvalidMaxCols)
    else
      match NewBlockDimensions(maxRows, maxCols)
      case None => Err(BlockTooBig)
      case Some(max) =>
        if blockSize > max.size then Err(BlockTooBig)
        else if blockSize == max.size then Ok(max)
        else
          var nearest := Max(NextPow2(blockSize), MINIMUM_BLOCK_SIZE);
          NextPow2IsLeast(blockSize);
          var totalCells := (nearest + (CHUNK_SIZE - 1)) / CHUNK_SIZE;
          match ShapeOf(totalCells, maxCols)
          case None => Err(BlockTooBig)
          case Some(d) => Ok(d)
  }

  /** `round_up_to_multiple`, saturating at the 64-bit limit. */
  function RoundUpToMultiple(input: u64, multiple: nz16): u64 {
    var n := (if input + (multiple - 1) > U64_MAX then U64_MAX else input + (multiple - 1)) / multiple;
    QuotientBounds(if input + (multiple - 1) > U64_MAX then U64_MAX else input + (multiple - 1), multiple);
    assert n * multiple >= 0;
    if n * multiple > U64_MAX then U64_MAX else n * multiple
  }

  function GetBlockDims(nScalars: u64, minWidth: u64, maxWidth: u64, maxHeight: u64): Result<Dimensions, Error> {
    if nScalars < maxWidth then
      NextPow2IsLeast(nScalars);
      if NextPow2(nScalars) > U64_MAX then Err(BlockTooBig) else
      match NewDimensions(1, Max(NextPow2(nScalars), minWidth))
      case None => Err(ZeroDimension)
      case Some(d) => Ok(d)
    else if maxWidth == 0 || maxWidth >= 0x1_0000 then Err(ZeroDimension)
    else
      var currentHeight := RoundUpToMultiple(nScalars, maxWidth) / maxWidth;
      QuotientBounds(RoundUpToMultiple(nScalars, maxWidth), maxWidth);
      var height := NextPow2(currentHeight);
      if height > U64_MAX || height > maxHeight then Err(BlockTooBig) else
      match NewDimensions(height, maxWidth)
      case None => Err(ZeroDimension)
      case Some(d) => Ok(d)
  }

  // ---------- Arithmetic of powers of two ----------

  lemma {:induction false} Pow2Quotient(a: nat, b: nat)
    requires IsPow2(a) && IsPow2(b) && a >= b
    ensures a / b * b == a && IsPow2(a / b)
  {
    if b > 1 {
      Pow2Quotient(a / 2, b / 2);
      HalveQuotient(a / 2, b / 2);
      MulTwice(b / 2, (a / 2) / (b / 2));
    }
  }

  lemma {:induction false} Pow2Product(a: nat, b: nat)
    requires IsPow2(a) && IsPow2(b)
    ensures IsPow2(a * b)
  {
    if b > 1 {
      Pow2Product(a, b / 2);
      Pow2Doubles(a * (b / 2));
      MulTwice(b / 2, a);
    } else {
      assert a * b == a;
    }
  }

  lemma Pow2Doubles(a: nat)
    requires IsPow2(a)
    ensures IsPow2(2 * a)
  {}

  lemma NextPow2Double(n: nat)
    requires n > 0
    ensures NextPow2(2 * n) == 2 * NextPow2(n)
  {
    assert (2 * n + 1) / 2 == n;
  }

  lemma NextPow2Times32(n: nat)
    requires n > 0
    ensures NextPow2(32 * n) == 32 * NextPow2(n)
  {
    NextPow2Double(n);
    NextPow2Double(2 * n);
    NextPow2Double(4 * n);
    NextPow2Double(8 * n);
    NextPow2Double(16 * n);
  }

  /** Rounding up to a power of two and dividing by one commute. */
  lemma {:induction false} NextPow2OfQuotient(n: nat, w: nat)
    requires IsPow2(w) && n >= w
    ensures NextPow2(n) == w * NextPow2(CeilDiv(n, w))
  {
    if w > 1 {
      NextPow2OfQuotient((n + 1) / 2, w / 2);
      CeilDivHalves(n, w);
      MulTwice(w / 2, NextPow2(CeilDiv(n, w)));
      hide CeilDiv;
    }
  }

  // ---------- What a successful size looks like ----------

  lemma MinimumIsPow2()
    ensures IsPow2(128) && IsPow2(32)
  {
    assert IsPow2(2) && IsPow2(4) && IsPow2(8) && IsPow2(16) && IsPow2(32) && IsPow2(64);
  }

  /** The size in bytes apart from the exact fit: the least power of two that holds the input and the minimum. */
  function TargetSize(blockSize: nat): nat {
    Max(NextPow2(blockSize), MINIMUM_BLOCK_SIZE)
  }

  lemma TargetIsLeastPow2(blockSize: nat)
    ensures IsPow2(TargetSize(blockSize)) && TargetSize(blockSize) >= Max(blockSize, MINIMUM_BLOCK_SIZE)
    ensures forall m :: IsPow2(m) && m >= Max(blockSize, MINIMUM_BLOCK_SIZE) ==> TargetSize(blockSize) <= m
  {
    MinimumIsPow2();
    NextPow2IsLeast(blockSize);
  }

  lemma ShapeOfTarget(target: nat, maxCols: nat)
    requires IsPow2(target) && target >= 128 && IsPow2(maxCols)
    ensures var cells := (target + (CHUNK_SIZE - 1)) / CHUNK_SIZE;
      && cells * 32 == target && IsPow2(cells) && cells >= 4
      && (cells > maxCols ==> cells / maxCols * maxCols == cells && IsPow2(cells / maxCols))
  {
    MinimumIsPow2();
    Pow2Quotient(target, 32);
    var cells := target / 32;
    assert (target + 31) / 32 == cells;
    if cells > maxCols {
      Pow2Quotient(cells, maxCols);
    }
  }

  /** The shape chosen for a target size of so many cells stays within the limits. */
  lemma TargetWithinLimits(target: nat, cells: nat, rows: nat, cols: nat, limit: nat)
    requires cols > 0 && limit == rows * cols && cells * 32 == target && target <= Max(limit * 32, 128)
    ensures limit >= 4 ==> cells / cols <= rows
  {
    CellsWithin(target, cells, limit);
    if limit >= 4 {
      RowsWithin(cells, rows, cols, limit);
    }
  }

  lemma CellsWithin(target: nat, cells: nat, limit: nat)
    requires cells * 32 == target && target <= Max(limit * 32, 128)
    ensures limit >= 4 ==> cells <= limit
  {}

  lemma RowsWithin(cells: nat, rows: nat, cols: nat, limit: nat)
    requires cols > 0 && limit == rows * cols && cells <= limit
    ensures cells / cols <= rows
  {
    assert (rows + 1) * cols == limit + cols;
    QuotientBelow(cells, cols, rows + 1);
  }

  lemma TargetBounds(blockSize: nat, maxRows: nat, maxCols: nat)
    requires IsPow2(maxRows) && IsPow2(maxCols) && blockSize < maxRows * maxCols * CHUNK_SIZE
    ensures TargetSize(blockSize) <= Max(maxRows * maxCols * CHUNK_SIZE, 128)
  {
    MinimumIsPow2();
    Pow2Product(maxRows, maxCols);
    Pow2Product(maxRows * maxCols, 32);
    NextPow2IsLeast(blockSize);
  }

  /** Below the maximum size the answer is always the shape of the target size. */
  lemma BelowMaximum(blockSize: u32, maxRows: u32, maxCols: u32)
    requires IsPow2(maxRows) && IsPow2(maxCols) && maxRows * maxCols * CHUNK_SIZE <= U32_MAX
    requires blockSize < maxRows * maxCols * CHUNK_SIZE
    ensures var target := TargetSize(blockSize);
      var cells := (target + (CHUNK_SIZE - 1)) / CHUNK_SIZE;
      && target <= U32_MAX
      && GetBlockDimensions(blockSize, maxRows, maxCols)
        == Ok(if cells > maxCols then BlockDimensions(cells / maxCols, maxCols, target)
              else BlockDimensions(1, cells, target))
  {
    NewBlockOf(maxRows, maxCols, maxRows * maxCols);
    hide NewBlockDimensions;
    TargetIsLeastPow2(blockSize);
    TargetBounds(blockSize, maxRows, maxCols);
    ShapeFits(TargetSize(blockSize), maxCols);
    assert TargetSize(blockSize) == Max(NextPow2(blockSize), MINIMUM_BLOCK_SIZE);
    hide IsPow2, NextPow2, TargetSize, ShapeOf;
  }

  lemma ShapeFits(target: nat, maxCols: u32)
    requires IsPow2(target) && 128 <= target <= U32_MAX && IsPow2(maxCols)
    ensures var cells := (target + (CHUNK_SIZE - 1)) / CHUNK_SIZE;
      && cells <= U32_MAX
      && ShapeOf(cells, maxCols)
        == Some(if cells > maxCols then BlockDimensions(cells / maxCols, maxCols, target)
              else BlockDimensions(1, cells, target))
  {
    ShapeOfTarget(target, maxCols);
    hide IsPow2;
    var cells := (target + (CHUNK_SIZE - 1)) / CHUNK_SIZE;
    NewBlockOf(1, cells, cells);
    if cells > maxCols {
      QuotientBounds(cells, maxCols);
      NewBlockOf(cells / maxCols, maxCols, cells);
    }
  }

  lemma NewBlockOf(rows: u32, cols: u32, cells: u32)
    requires rows * cols == cells && cells * 32 <= U32_MAX
    ensures NewBlockDimensions(rows, cols) == Some(BlockDimensions(rows, cols, cells * 32))
  {}

  /** `get_block_dimensions` answers exactly when both limits are powers of two, their product in bytes fits 32 bits,
      and the input fits it; the error says which of them is wrong, the row limit first. */
  lemma BlockDimensionsSucceed(blockSize: u32, maxRows: u32, maxCols: u32)
    ensures GetBlockDimensions(blockSize, maxRows, maxCols).Ok? <==>
      IsPow2(maxRows) && IsPow2(maxCols) && maxRows * maxCols * CHUNK_SIZE <= U32_MAX
      && blockSize <= maxRows * maxCols * CHUNK_SIZE
    ensures GetBlockDimensions(blockSize, maxRows, maxCols).Err? ==>
      GetBlockDimensions(blockSize, maxRows, maxCols)
        == Err(if !IsPow2(maxRows) then InvalidMaxRows else if !IsPow2(maxCols) then InvalidMaxCols else BlockTooBig)
  {
    if IsPow2(maxRows) && IsPow2(maxCols) && maxRows * maxCols * CHUNK_SIZE <= U32_MAX
      && blockSize < maxRows * maxCols * CHUNK_SIZE {
      BelowMaximum(blockSize, maxRows, maxCols);
    }
  }

  /** The shape of every answer: powers of two that hold the input; apart from the exact fit, the least power of two
      from the minimum on, in one row unless the columns are used up; never more columns than allowed, and not more rows
      once the limits allow four cells. */
  lemma BlockDimensionsShape(blockSize: u32, maxRows: u32, maxCols: u32)
    requires GetBlockDimensions(blockSize, maxRows, maxCols).Ok?
    ensures var d := GetBlockDimensions(blockSize, maxRows, maxCols).value;
      && IsPow2(d.rows) && IsPow2(d.cols)
      && blockSize <= d.size == d.rows * d.cols * CHUNK_SIZE
      && (blockSize == maxRows * maxCols * CHUNK_SIZE ==> d.rows == maxRows && d.cols == maxCols)
      && (blockSize != maxRows * maxCols * CHUNK_SIZE ==>
            d.size == TargetSize(blockSize) && (d.rows > 1 ==> d.cols == maxCols))
      && d.cols <= maxCols
      && (maxRows * maxCols >= 4 ==> d.rows <= maxRows)
  {
    BlockDimensionsSucceed(blockSize, maxRows, maxCols);
    if blockSize < maxRows * maxCols * CHUNK_SIZE {
      BelowMaximum(blockSize, maxRows, maxCols);
      var target := TargetSize(blockSize);
      TargetIsLeastPow2(blockSize);
      TargetBounds(blockSize, maxRows, maxCols);
      ShapeOfTarget(target, maxCols);
      var limit := maxRows * maxCols;
      assert limit * 32 == maxRows * maxCols * CHUNK_SIZE;
      TargetWithinLimits(target, (target + (CHUNK_SIZE - 1)) / CHUNK_SIZE, maxRows, maxCols, limit);
      hide IsPow2, NextPow2, GetBlockDimensions;
    }
  }

  // ---------- The two functions agree ----------

  lemma RoundUpIsCeil(n: u64, w: nz16)
    requires n + w <= U64_MAX
    ensures RoundUpToMultiple(n, w) == CeilDiv(n, w) * w && RoundUpToMultiple(n, w) / w == CeilDiv(n, w)
  {
    var q := CeilDiv(n, w);
    QuotientBounds(n + w - 1, w);
    QuotientOf(q * w, w, q);
  }

  /** Every answer of `get_block_dims`, for any limits. Below the maximum width it is one row of the least power of two,
      or of the minimum width if that is more; from there on it is whole rows, rounded up to a power of two. */
  lemma BlockDimsExactly(n: u64, minWidth: u64, maxWidth: u64, maxHeight: u64, d: Dimensions)
    ensures GetBlockDims(n, minWidth, maxWidth, maxHeight) == Ok(d) <==>
      if n < maxWidth then d.rows == 1 && d.cols == if NextPow2(n) >= minWidth then NextPow2(n) else minWidth
      else d.cols == maxWidth && d.rows == NextPow2(CeilDiv(n, maxWidth)) && d.rows <= maxHeight
  {
    NextPow2IsLeast(n);
    if n >= maxWidth && 0 < maxWidth < 0x1_0000 {
      WideExactly(n, minWidth, maxWidth, maxHeight, d);
    }
    hide NextPow2, IsPow2, RoundUpToMultiple, CeilDiv;
  }

  lemma WideExactly(n: u64, minWidth: u64, w: nz16, maxHeight: u64, d: Dimensions)
    requires n >= w
    ensures GetBlockDims(n, minWidth, w, maxHeight) == Ok(d) <==>
      d.cols == w && d.rows == NextPow2(CeilDiv(n, w)) && d.rows <= maxHeight
  {
    var c := CeilDiv(n, w);
    NextPow2IsLeast(c);
    if n + w <= U64_MAX {
      RoundUpIsCeil(n, w);
    } else {
      CeilDivIsLeast(n, w, 0xffff);
      SaturatedHeight(n, w);
      NextPow2IsLeast(RoundUpToMultiple(n, w) / w);
    }
    hide NextPow2, IsPow2, RoundUpToMultiple, CeilDiv;
  }

  lemma SaturatedHeight(n: u64, w: nz16)
    requires n + w > U64_MAX
    ensures RoundUpToMultiple(n, w) / w > 0xffff
  {
    var q := (if n + (w - 1) > U64_MAX then U64_MAX else n + (w - 1)) / w;
    QuotientBelow(if n + (w - 1) > U64_MAX then U64_MAX else n + (w - 1), w, 0x1_0000);
    QuotientBounds(if n + (w - 1) > U64_MAX then U64_MAX else n + (w - 1), w);
    QuotientOf(q * w, w, q);
  }

  /** Why `get_block_dims` refuses: the cells do not fit the maximum height, or a number does not fit 16 bits or is
      zero. */
  lemma BlockDimsRefuse(n: u64, minWidth: u64, maxWidth: u64, maxHeight: u64)
    requires n < maxWidth || n + maxWidth <= U64_MAX
    requires GetBlockDims(n, minWidth, maxWidth, maxHeight).Err?
    ensures GetBlockDims(n, minWidth, maxWidth, maxHeight)
      == Err(if n < maxWidth then if NextPow2(n) > U64_MAX then BlockTooBig else ZeroDimension
             else if maxWidth == 0 || maxWidth >= 0x1_0000 then ZeroDimension
             else if NextPow2(CeilDiv(n, maxWidth)) > maxHeight then BlockTooBig else ZeroDimension)
  {
    NextPow2IsLeast(n);
    if n >= maxWidth && 0 < maxWidth < 0x1_0000 {
      RoundUpIsCeil(n, maxWidth);
    }
    hide NextPow2, IsPow2, RoundUpToMultiple, CeilDiv;
  }

  /** Once the columns are used up: the row count is the cell count in whole rows, rounded up to a power of two. */
  lemma WideHeight(n: nat, w: nat, h: nat)
    requires IsPow2(h) && w > 0 && n >= w
    ensures NextPow2(CeilDiv(n, w)) <= h <==> n <= h * w
    ensures n == w ==> NextPow2(CeilDiv(n, w)) == 1
    ensures n == h * w ==> NextPow2(CeilDiv(n, w)) == h
  {
    var c := CeilDiv(n, w);
    CeilDivIsLeast(n, w, h);
    CeilDivIsLeast(n, w, 1);
    CeilDivIsLeast(n, w, 0);
    CeilDivIsLeast(n, w, h - 1);
    assert (h - 1) * w == h * w - w;
    NextPow2IsLeast(c);
    NextPow2OfPow2(h);
    hide CeilDiv, IsPow2;
  }

  lemma WideQuotient(n: nat, w: nat)
    requires IsPow2(w) && n >= w
    ensures NextPow2(n) / w == NextPow2(CeilDiv(n, w))
    ensures NextPow2(n) > w <==> n > w
    ensures NextPow2(n) >= w
  {
    NextPow2IsLeast(n);
    NextPow2OfQuotient(n, w);
    QuotientOfProduct(NextPow2(CeilDiv(n, w)), w);
    NextPow2OfPow2(w);
    hide NextPow2, CeilDiv, IsPow2;
  }

  ghost predicate SameShape(a: Result<BlockDimensions, Error>, b: Result<Dimensions, Error>) {
    match (a, b)
    case (Ok(d), Ok(m)) => d.rows == m.rows && d.cols == m.cols
    case (Err(e), Err(f)) => e == f == BlockTooBig
    case _ => false
  }

  lemma NarrowAgree(n: nat, maxRows: nat, maxCols: nat)
    requires IsPow2(maxCols) && 4 <= maxCols <= 0x8000 && IsPow2(maxRows)
    requires maxRows * maxCols * CHUNK_SIZE <= U32_MAX && n < maxCols
    ensures maxRows <= U32_MAX
    ensures SameShape(GetBlockDimensions(32 * n, maxRows, maxCols), GetBlockDims(n, 4, maxCols, maxRows))
  {
    NarrowBlocksAgree(n, maxCols);
    MulLe(1, maxRows, maxCols);
    MulLe(4, maxCols, maxRows);
    BelowMaximum(32 * n, maxRows, maxCols);
    hide IsPow2, NextPow2, GetBlockDimensions, TargetSize;
  }

  /** What `get_block_dims` answers once the columns are used up. */
  lemma WideGrid(n: u32, maxRows: nat, maxCols: nat)
    requires IsPow2(maxCols) && 4 <= maxCols <= 0x8000 && IsPow2(maxRows) && maxRows <= 0x8000 && n >= maxCols
    ensures n <= maxRows * maxCols ==> 0 < NextPow2(CeilDiv(n, maxCols)) <= 0x8000
    ensures GetBlockDims(n, 4, maxCols, maxRows)
      == if n <= maxRows * maxCols then Ok(Dimensions(NextPow2(CeilDiv(n, maxCols)), maxCols)) else Err(BlockTooBig)
  {
    WideHeight(n, maxCols, maxRows);
    RoundUpIsCeil(n, maxCols);
    NextPow2IsLeast(CeilDiv(n, maxCols));
    hide IsPow2, RoundUpToMultiple, CeilDiv, NextPow2;
  }

  lemma WideAgree(n: nat, maxRows: nat, maxCols: nat)
    requires IsPow2(maxCols) && 4 <= maxCols <= 0x8000 && IsPow2(maxRows) && maxRows <= 0x8000 && n >= maxCols
    requires maxRows * maxCols * CHUNK_SIZE <= U32_MAX && n < maxRows * maxCols && 32 * n <= U32_MAX
    ensures SameShape(GetBlockDimensions(32 * n, maxRows, maxCols), GetBlockDims(n, 4, maxCols, maxRows))
  {
    WideGrid(n, maxRows, maxCols);
    BelowMaximum(32 * n, maxRows, maxCols);
    hide GetBlockDimensions, GetBlockDims;
    CellsOfTarget(n);
    WideQuotient(n, maxCols);
    WideHeight(n, maxCols, maxRows);
    hide NextPow2, CeilDiv, TargetSize, IsPow2;
    if n == maxCols {
      assert NextPow2(n) <= maxCols;
    } else {
      assert NextPow2(n) > maxCols;
    }
  }

  lemma CellsOfTarget(n: nat)
    requires n >= 4
    ensures (TargetSize(32 * n) + (CHUNK_SIZE - 1)) / CHUNK_SIZE == NextPow2(n)
  {
    NextPow2Times32(n);
    NextPow2IsLeast(n);
    hide NextPow2;
  }

  /** From the same number of cells both functions choose the same rows and columns, or both find the block too big. */
  lemma SizesAgree(n: nat, maxRows: nat, maxCols: nat)
    requires IsPow2(maxCols) && 4 <= maxCols <= 0x8000 && IsPow2(maxRows) && maxRows <= 0x8000
    requires maxRows * maxCols < 0x800_0000 && 32 * n <= U32_MAX
    ensures SameShape(GetBlockDimensions(32 * n, maxRows, maxCols), GetBlockDims(n, 4, maxCols, maxRows))
  {
    BlockDimensionsSucceed(32 * n, maxRows, maxCols);
    if n < maxCols {
      NarrowAgree(n, maxRows, maxCols);
    } else if n < maxRows * maxCols {
      WideAgree(n, maxRows, maxCols);
    } else {
      WideGrid(n, maxRows, maxCols);
      WideHeight(n, maxCols, maxRows);
      hide IsPow2, NextPow2, CeilDiv, GetBlockDims;
    }
  }

  lemma NarrowBlocksAgree(n: nat, maxCols: nat)
    requires IsPow2(maxCols) && 4 <= maxCols <= 0x8000 && n < maxCols
    ensures Max(NextPow2(n), 4) <= maxCols
    ensures (TargetSize(32 * n) + (CHUNK_SIZE - 1)) / CHUNK_SIZE == Max(NextPow2(n), 4)
  {
    NextPow2IsLeast(n);
    if n > 0 {
      NextPow2Times32(n);
    }
  }
}
