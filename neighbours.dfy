// countNeighboursPadded: the Moore neighbourhood count by direct indexing
// into the padded buffer, and its agreement with the toroidal count.
module Neighbours {
  import opened Grid
  import opened Padding

  /**
   * The sum of the eight cells around (col, row) at offsets {-1,0,1}^2 other
   * than (0,0), read straight from the buffer (the cell itself is not read).
   */
  ghost function MooreSum(s: seq<int>, cols: int, rows: int, col: int, row: int): int
    requires IsGrid(s, cols, rows) && InLogical(cols, rows, col, row)
  {
    Cell(s, cols, rows, col - 1, row - 1) + Cell(s, cols, rows, col, row - 1) + Cell(s, cols, rows, col + 1, row - 1) +
    Cell(s, cols, rows, col - 1, row) + Cell(s, cols, rows, col + 1, row) +
    Cell(s, cols, rows, col - 1, row + 1) + Cell(s, cols, rows, col, row + 1) + Cell(s, cols, rows, col + 1, row + 1)
  }

  /** The value of the logical cell that (col, row) stands for on the torus. */
  ghost function TorusCell(s: seq<int>, cols: int, rows: int, col: int, row: int): int
    requires IsGrid(s, cols, rows)
  {
    Cell(s, cols, rows, Wrap(col, cols), Wrap(row, rows))
  }

  /**
   * The periodic Moore count: the eight neighbours of a logical cell with
   * coordinates taken modulo the grid, never reading the border.
   */
  ghost function TorusCount(s: seq<int>, cols: int, rows: int, col: int, row: int): int
    requires IsGrid(s, cols, rows)
  {
    TorusCell(s, cols, rows, col - 1, row - 1) + TorusCell(s, cols, rows, col, row - 1) + TorusCell(s, cols, rows, col + 1, row - 1) +
    TorusCell(s, cols, rows, col - 1, row) + TorusCell(s, cols, rows, col + 1, row) +
    TorusCell(s, cols, rows, col - 1, row + 1) + TorusCell(s, cols, rows, col, row + 1) + TorusCell(s, cols, rows, col + 1, row + 1)
  }

  /**
   * Once the padding is filled, the direct-index count at any logical cell
   * equals the toroidal count.
   */
  lemma PaddedCountIsToroidal(s: seq<int>, cols: int, rows: int, col: int, row: int)
    requires IsGrid(s, cols, rows) && Mirrored(s, cols, rows)
    requires InLogical(cols, rows, col, row)
    ensures MooreSum(s, cols, rows, col, row) == TorusCount(s, cols, rows, col, row)
  {
    MirroredIffSelfWrapped(s, cols, rows);
    forall x, y | col - 1 <= x <= col + 1 && row - 1 <= y <= row + 1
      ensures Cell(s, cols, rows, x, y) == TorusCell(s, cols, rows, x, y)
    {
      assert InPadded(cols, rows, x, y);
    }
  }

  /** The count never reads the cell itself: overwriting it leaves the count unchanged. */
  lemma MooreSumIgnoresCentre(s: seq<int>, cols: int, rows: int, col: int, row: int, v: int)
    requires IsGrid(s, cols, rows) && InLogical(cols, rows, col, row)
    ensures 0 <= Index(col, row, cols + 2) < |s|
    ensures MooreSum(s[Index(col, row, cols + 2) := v], cols, rows, col, row) == MooreSum(s, cols, rows, col, row)
  {
    IndexInBounds(cols, rows, col, row);
    var t := s[Index(col, row, cols + 2) := v];
    forall x, y | col - 1 <= x <= col + 1 && row - 1 <= y <= row + 1 && (x != col || y != row)
      ensures Cell(t, cols, rows, x, y) == Cell(s, cols, rows, x, y)
    {
      CellAfterWriteAt(s, cols, rows, col, row, v, x, y);
    }
  }

  /** The count over a buffer of 0/1 cells lies in [0, 8]. */
  lemma MooreSumRange(s: seq<int>, cols: int, rows: int, col: int, row: int)
    requires IsGrid(s, cols, rows) && AllBinary(s)
    requires InLogical(cols, rows, col, row)
    ensures 0 <= MooreSum(s, cols, rows, col, row) <= 8
  {
    forall x, y | col - 1 <= x <= col + 1 && row - 1 <= y <= row + 1
      ensures 0 <= Cell(s, cols, rows, x, y) <= 1
    {
      CellBinary(s, cols, rows, x, y);
    }
  }

  /**
   * countNeighboursPadded: the loop adds the three cells of the row below and
   * the row above for each column offset, then the left and right cells.
   * That uneven order sums the same eight cells as MooreSum.
   */
  method CountNeighboursPadded(iColumn: int, iRow: int, cellMatrix: array<int>, cols: int, rows: int)
    returns (nNeighbours: int)
    requires IsGrid(cellMatrix[..], cols, rows)
    requires InLogical(cols, rows, iColumn, iRow)
    ensures nNeighbours == MooreSum(cellMatrix[..], cols, rows, iColumn, iRow)
    ensures Mirrored(cellMatrix[..], cols, rows) ==>
      nNeighbours == TorusCount(cellMatrix[..], cols, rows, iColumn, iRow)
    ensures AllBinary(cellMatrix[..]) ==> 0 <= nNeighbours <= 8
  {
    ghost var s := cellMatrix[..];
    var w := cols + 2;
    nNeighbours := 0;
    var i := -1;
    while i < 2
      invariant -1 <= i <= 2
      invariant nNeighbours ==
        (if i > -1 then Cell(s, cols, rows, iColumn - 1, iRow + 1) + Cell(s, cols, rows, iColumn - 1, iRow - 1) else 0) +
        (if i > 0 then Cell(s, cols, rows, iColumn, iRow + 1) + Cell(s, cols, rows, iColumn, iRow - 1) else 0) +
        (if i > 1 then Cell(s, cols, rows, iColumn + 1, iRow + 1) + Cell(s, cols, rows, iColumn + 1, iRow - 1) else 0)
    {
      IndexInBounds(cols, rows, iColumn + i, iRow + 1);
      nNeighbours := nNeighbours + cellMatrix[Index(iColumn + i, iRow + 1, w)];
      IndexInBounds(cols, rows, iColumn + i, iRow - 1);
      nNeighbours := nNeighbours + cellMatrix[Index(iColumn + i, iRow - 1, w)];
      i := i + 1;
    }
    IndexInBounds(cols, rows, iColumn - 1, iRow);
    nNeighbours := nNeighbours + cellMatrix[Index(iColumn - 1, iRow, w)];
    IndexInBounds(cols, rows, iColumn + 1, iRow);
    nNeighbours := nNeighbours + cellMatrix[Index(iColumn + 1, iRow, w)];
    if Mirrored(s, cols, rows) {
      PaddedCountIsToroidal(s, cols, rows, iColumn, iRow);
    }
    if AllBinary(s) {
      MooreSumRange(s, cols, rows, iColumn, iRow);
    }
  }
}
