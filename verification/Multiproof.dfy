/** Multiproof blocks: how a grid is cut into equal blocks (kate/src/gridgen/core.rs). */
module Multiproof {
  import opened Results
  import opened Division
  import opened Matrix

  /** End coordinates are exclusive. */
  datatype CellBlock = CellBlock(startX: nat, startY: nat, endX: nat, endY: nat) {
    ghost predicate Contains(col: nat, row: nat) {
      startX <= col < endX && startY <= row < endY
    }
  }

  function Min(a: nz16, b: nz16): nz16 {
    if a <= b then a else b
  }

  /** `multiproof_dims`: the size of the grid of blocks. */
  function MultiproofDims(grid: Dimensions, target: Dimensions): Option<Dimensions> {
    var cols, rows := Min(grid.cols, target.cols), Min(grid.rows, target.rows);
    if grid.cols % cols != 0 || grid.rows % rows != 0 then None else Some(Dimensions(rows, cols))
  }

  /** `multiproof_block`: the block at column x and row y of the grid of blocks. */
  function MultiproofBlock(x: nat, y: nat, grid: Dimensions, target: Dimensions): Option<CellBlock> {
    var mp :- MultiproofDims(grid, target);
    if x >= mp.cols || y >= mp.rows then None else
    var width, height := grid.cols / mp.cols, grid.rows / mp.rows;
    QuotientBounds(grid.cols, mp.cols);
    QuotientBounds(grid.rows, mp.rows);
    MulLe(0, x, width);
    MulLe(0, y, height);
    MulLe(0, x + 1, width);
    MulLe(0, y + 1, height);
    Some(CellBlock(x * width, y * height, (x + 1) * width, (y + 1) * height))
  }

  /** The cut is refused exactly when, in some direction, the target is smaller than the grid and does not divide it.
      Otherwise there are as many blocks in each direction as the target asks for, but not more than cells. */
  lemma DimsSucceedExactly(grid: Dimensions, target: Dimensions)
    ensures MultiproofDims(grid, target).Some? <==>
      (target.cols >= grid.cols || exists w: nat :: grid.cols == w * target.cols) &&
      (target.rows >= grid.rows || exists h: nat :: grid.rows == h * target.rows)
    ensures MultiproofDims(grid, target).Some? ==>
      var mp := MultiproofDims(grid, target).value;
      && mp.cols <= grid.cols && mp.cols <= target.cols && (mp.cols == grid.cols || mp.cols == target.cols)
      && mp.rows <= grid.rows && mp.rows <= target.rows && (mp.rows == grid.rows || mp.rows == target.rows)
  {
    MultipleExactly(grid.cols, target.cols);
    MultipleExactly(grid.rows, target.rows);
  }

  lemma MultipleExactly(n: nz16, t: nz16)
    ensures n % Min(n, t) == 0 <==> t >= n || exists w: nat :: n == w * t
  {
    if t < n {
      MultipleOf(n, t);
    }
  }

  lemma MultipleOf(n: nat, t: nat)
    requires t > 0
    ensures n % t == 0 <==> exists w: nat :: n == w * t
  {
    assert n == n / t * t + n % t;
    if w: nat :| n == w * t {
      QuotientOf(n, t, w);
    }
  }

  /** n positions in m stripes of equal width: stripe x ends inside, and holds exactly the positions whose quotient
      is x. */
  lemma Stripe(n: nat, m: nat, x: nat, i: nat)
    requires 0 < m && 0 < n && n % m == 0
    ensures 0 < n / m
    ensures x < m ==> (x + 1) * (n / m) <= n
    ensures x * (n / m) <= i < (x + 1) * (n / m) <==> x == i / (n / m)
    ensures i < n ==> 0 <= i / (n / m) < m
  {
    QuotientBelow(n, m, 1);
    assert n == n / m * m + n % m;
    StripeEnds(n, m, n / m, x, i);
    StripeOf(i, n / m, x);
  }

  lemma StripeEnds(n: nat, m: nat, w: nat, x: nat, i: nat)
    requires 0 < w && n == w * m
    ensures x < m ==> (x + 1) * w <= n
    ensures i < n ==> 0 <= i / w < m
  {
    assert w * m == m * w;
    if x < m {
      MulLe(x + 1, m, w);
    }
    QuotientBelow(i, w, m);
  }

  lemma StripeOf(i: nat, w: nat, x: nat)
    requires w > 0
    ensures x * w <= i < (x + 1) * w <==> x == i / w
  {
    QuotientBelow(i, w, x);
    QuotientBelow(i, w, x + 1);
  }

  ghost predicate InBlock(x: nat, y: nat, grid: Dimensions, target: Dimensions, col: nat, row: nat) {
    var b := MultiproofBlock(x, y, grid, target);
    b.Some? && b.value.Contains(col, row)
  }

  ghost predicate IsOnlyBlock(x: nat, y: nat, grid: Dimensions, target: Dimensions, col: nat, row: nat) {
    forall x': nat, y': nat :: InBlock(x', y', grid, target, col, row) <==> x' == x && y' == y
  }

  /** Blocks exist exactly inside the grid of blocks; all have the same positive size and lie in the grid, block (x, y)
      behind x blocks to its left and y above it. */
  lemma BlocksAreEqual(x: nat, y: nat, grid: Dimensions, target: Dimensions)
    requires MultiproofDims(grid, target).Some?
    ensures var mp := MultiproofDims(grid, target).value;
      var b := MultiproofBlock(x, y, grid, target);
      && (b.Some? <==> x < mp.cols && y < mp.rows)
      && (b.Some? ==> (b.value.endX - b.value.startX) * mp.cols == grid.cols && b.value.endX <= grid.cols)
      && (b.Some? ==> (b.value.endY - b.value.startY) * mp.rows == grid.rows && b.value.endY <= grid.rows)
      && (b.Some? ==> b.value.startX == x * (b.value.endX - b.value.startX))
      && (b.Some? ==> b.value.startY == y * (b.value.endY - b.value.startY))
  {
    var mp := MultiproofDims(grid, target).value;
    Stripe(grid.cols, mp.cols, x, 0);
    Stripe(grid.rows, mp.rows, y, 0);
    BlockSide(grid.cols, mp.cols, x);
    BlockSide(grid.rows, mp.rows, y);
  }

  lemma BlockSide(n: nat, m: nat, x: nat)
    requires 0 < m && n % m == 0
    ensures ((x + 1) * (n / m) - x * (n / m)) * m == n && (x + 1) * (n / m) - x * (n / m) == n / m
  {
    assert (x + 1) * (n / m) == x * (n / m) + n / m;
    assert n == n / m * m + n % m;
  }

  /** The blocks tile the grid: every cell of the grid lies in one block and in no other. */
  lemma BlocksTile(grid: Dimensions, target: Dimensions, col: nat, row: nat)
    requires MultiproofDims(grid, target).Some? && col < grid.cols && row < grid.rows
    ensures exists x, y :: IsOnlyBlock(x, y, grid, target, col, row)
  {
    var mp := MultiproofDims(grid, target).value;
    Stripe(grid.cols, mp.cols, 0, col);
    Stripe(grid.rows, mp.rows, 0, row);
    var x, y := col / (grid.cols / mp.cols), row / (grid.rows / mp.rows);
    forall x': nat, y': nat
      ensures InBlock(x', y', grid, target, col, row) <==> x' == x && y' == y
    {
      InBlockExactly(x', y', grid, target, col, row);
    }
    assert IsOnlyBlock(x, y, grid, target, col, row);
  }

  lemma InBlockExactly(x: nat, y: nat, grid: Dimensions, target: Dimensions, col: nat, row: nat)
    requires MultiproofDims(grid, target).Some? && col < grid.cols && row < grid.rows
    ensures var mp := MultiproofDims(grid, target).value;
      && grid.cols / mp.cols > 0 && grid.rows / mp.rows > 0
      && (InBlock(x, y, grid, target, col, row) <==>
            x == col / (grid.cols / mp.cols) && y == row / (grid.rows / mp.rows))
  {
    var mp := MultiproofDims(grid, target).value;
    Stripe(grid.cols, mp.cols, x, col);
    Stripe(grid.rows, mp.rows, y, row);
  }
}
