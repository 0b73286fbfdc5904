/** Dimensions of the data matrix and positions in the row-extended matrix (kate/recovery/src/matrix.rs). */
module Matrix {
  import opened Results
  import opened Bytes
  import opened DataLookup
  import opened Division

  type nz16 = x: int | 0 < x < 0x1_0000 witness 1

  const EXTENSION_FACTOR: nat := 2

  datatype Position = Position(row: u32, col: u16)

  /** `Dimensions::new_from`: both numbers must be non-zero and fit 16 bits. */
  function NewDimensions(rows: nat, cols: nat): Option<Dimensions> {
    if 0 < rows < 0x1_0000 && 0 < cols < 0x1_0000 then Some(Dimensions(rows, cols)) else None
  }

  datatype Dimensions = Dimensions(rows: nz16, cols: nz16) {
    function Size(): u32 {
      assert rows * cols <= 0xffff * 0xffff;
      rows * cols
    }

    predicate Divides(other: Dimensions) {
      other.cols % cols == 0 && other.rows % rows == 0
    }

    function Extend(rowFactor: nz16, colFactor: nz16): Option<Dimensions> {
      NewDimensions(rows * rowFactor, cols * colFactor)
    }

    function ExtendedRows(): u32 {
      rows * EXTENSION_FACTOR
    }

    function RowByteSize(): nat {
      CHUNK_SIZE * cols
    }

    predicate ExtendedContains(p: Position) {
      p.row < ExtendedRows() && p.col < cols
    }

    function Col(cell: u32): u16 {
      cell % cols
    }

    /** Row of a data cell after extension. The 32-bit product wraps around as in a release build, which it can only for
        a cell beyond the matrix. */
    function ExtendedDataRow(cell: u32): u32 {
      QuotientBounds(cell, cols);
      cell / cols * EXTENSION_FACTOR % 0x1_0000_0000
    }

    /** `extended_data_rows`: the data rows of a range of cells, none when the range is empty at 0 or too long. */
    function ExtendedDataRows(cells: Range): Option<seq<nat>> {
      if cells.end > Size() || cells.end == 0 then None
      else Some(StepRange(ExtendedDataRow(cells.start), ExtendedDataRow(cells.end - 1), EXTENSION_FACTOR))
    }

    function ExtendedDataPosition(cell: u32): (p: Position)
      requires cell < Size()
      ensures p.row == 2 * (cell / cols) && p.col == cell % cols && ExtendedContains(p)
    {
      RowInRange(cell);
      Position(ExtendedDataRow(cell), Col(cell))
    }

    lemma RowInRange(cell: u32)
      requires cell < Size()
      ensures cell / cols < rows
      ensures ExtendedDataRow(cell) == 2 * (cell / cols) < ExtendedRows()
    {
      QuotientBelow(cell, cols, rows);
      QuotientBounds(cell, cols);
    }

    /** `extended_data_positions`. */
    function ExtendedDataPositions(cells: Range): Option<seq<Position>> {
      if cells.end > Size() then None else Some(PositionsFrom(cells.start, cells.end))
    }

    function PositionsFrom(start: u32, end: u32): (s: seq<Position>)
      requires end <= Size()
      ensures |s| == if start <= end then end - start else 0
      ensures forall k :: 0 <= k < |s| ==> s[k] == ExtendedDataPosition(start + k)
      decreases end - start
    {
      if start >= end then [] else [ExtendedDataPosition(start)] + PositionsFrom(start + 1, end)
    }
  }

  /** `(first..=last).step_by(step)`. */
  function StepRange(first: nat, last: nat, step: nat): (s: seq<nat>)
    requires step > 0
    decreases last - first + step
  {
    if first > last then [] else [first] + StepRange(first + step, last, step)
  }
}
