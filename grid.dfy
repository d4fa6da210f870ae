// The padded cell buffer: a logical cols x rows grid surrounded by a
// one-cell border, stored row by row in one flat buffer of
// (cols + 2) * (rows + 2) ints.
module Grid {

  /**
   * index1D: column `column` of row `row` in a buffer whose rows are `columns`
   * wide. For a column inside the row, the column and the row are recovered
   * as the remainder and the quotient of the index by the row width.
   */
  function Index(column: int, row: int, columns: int): (i: int)
    ensures 0 <= column < columns ==> i % columns == column && i / columns == row
  {
    DivModOfIndex(row, columns, column);
    row * columns + column
  }

  /** q * w + c, for 0 <= c < w, has quotient q and remainder c by w. */
  lemma DivModOfIndex(q: int, w: int, c: int)
    ensures 0 <= c < w ==> (q * w + c) / w == q && (q * w + c) % w == c
  {
    if 0 <= c < w {
      var d, m := (q * w + c) / w, (q * w + c) % w;
      assert d * w + m == q * w + c;
      if d < q {
        MulMonotone(d + 1, q, w);
      } else if q < d {
        MulMonotone(q + 1, d, w);
      }
    }
  }

  /** The buffer length as main.cpp allocates it: the logical grid and a one-cell border. */
  function BufferSize(cols: int, rows: int): (n: int)
    ensures n == (cols + 2) * (rows + 2)
  {
    cols * rows + 2 * cols + 2 * rows + 4
  }

  /** Dimensions the program runs with: at least one logical cell each way. */
  predicate ValidDims(cols: int, rows: int)
  {
    cols >= 1 && rows >= 1
  }

  /** A buffer of the right length for the dimensions. */
  predicate IsGrid(s: seq<int>, cols: int, rows: int)
  {
    ValidDims(cols, rows) && |s| == BufferSize(cols, rows)
  }

  /** (col, row) is a cell of the buffer: logical or padding. */
  predicate InPadded(cols: int, rows: int, col: int, row: int)
  {
    0 <= col <= cols + 1 && 0 <= row <= rows + 1
  }

  /** (col, row) is a logical cell. */
  predicate InLogical(cols: int, rows: int, col: int, row: int)
  {
    1 <= col <= cols && 1 <= row <= rows
  }

  lemma MulMonotone(a: int, b: int, w: int)
    requires a <= b && w >= 0
    ensures a * w <= b * w
  {
    assert b * w - a * w == (b - a) * w;
  }

  /** Every buffer cell has an index inside the allocation, whose size is (cols+2)*(rows+2). */
  lemma IndexInBounds(cols: int, rows: int, col: int, row: int)
    requires cols >= 0 && rows >= 0
    requires InPadded(cols, rows, col, row)
    ensures BufferSize(cols, rows) == (cols + 2) * (rows + 2)
    ensures 0 <= Index(col, row, cols + 2) < BufferSize(cols, rows)
  {
    var w := cols + 2;
    MulMonotone(0, row, w);
    MulMonotone(row, rows + 1, w);
    assert (rows + 1) * w + w == (rows + 2) * w;
  }

  /** Distinct cells have distinct indices. */
  lemma IndexInjective(columns: int, c1: int, r1: int, c2: int, r2: int)
    requires 0 <= c1 < columns && 0 <= c2 < columns
    ensures Index(c1, r1, columns) == Index(c2, r2, columns) <==> c1 == c2 && r1 == r2
  {
    if r1 < r2 {
      MulMonotone(r1 + 1, r2, columns);
      assert (r1 + 1) * columns == r1 * columns + columns;
    } else if r2 < r1 {
      MulMonotone(r2 + 1, r1, columns);
      assert (r2 + 1) * columns == r2 * columns + columns;
    }
  }

  /** Every position of the buffer is the index of exactly one cell. */
  lemma IndexOnto(cols: int, rows: int, k: int)
    requires cols >= 0 && rows >= 0
    requires 0 <= k < BufferSize(cols, rows)
    ensures InPadded(cols, rows, k % (cols + 2), k / (cols + 2))
    ensures Index(k % (cols + 2), k / (cols + 2), cols + 2) == k
  {
    var w := cols + 2;
    IndexInBounds(cols, rows, 0, 0);
    if k / w > rows + 1 {
      MulMonotone(rows + 2, k / w, w);
    }
  }

  /** The value of cell (col, row) of a buffer. */
  function Cell(s: seq<int>, cols: int, rows: int, col: int, row: int): int
    requires IsGrid(s, cols, rows) && InPadded(cols, rows, col, row)
  {
    IndexInBounds(cols, rows, col, row);
    s[Index(col, row, cols + 2)]
  }

  /** Writing one cell of a buffer changes that cell and no other (at every cell at once). */
  lemma CellAfterWrite(s: seq<int>, cols: int, rows: int, col: int, row: int, v: int)
    requires IsGrid(s, cols, rows) && InPadded(cols, rows, col, row)
    ensures 0 <= Index(col, row, cols + 2) < |s|
    ensures IsGrid(s[Index(col, row, cols + 2) := v], cols, rows)
    ensures forall c, r :: InPadded(cols, rows, c, r) ==>
      Cell(s[Index(col, row, cols + 2) := v], cols, rows, c, r) ==
        if c == col && r == row then v else Cell(s, cols, rows, c, r)
  {
    IndexInBounds(cols, rows, col, row);
    var k := Index(col, row, cols + 2);
    forall c, r | InPadded(cols, rows, c, r)
      ensures Cell(s[k := v], cols, rows, c, r) == if c == col && r == row then v else Cell(s, cols, rows, c, r)
    {
      CellAfterWriteAt(s, cols, rows, col, row, v, c, r);
    }
  }

  /** Writing one cell of a buffer changes that cell and no other (at one cell). */
  lemma CellAfterWriteAt(s: seq<int>, cols: int, rows: int, col: int, row: int, v: int, c: int, r: int)
    requires IsGrid(s, cols, rows) && InPadded(cols, rows, col, row) && InPadded(cols, rows, c, r)
    ensures 0 <= Index(col, row, cols + 2) < |s|
    ensures IsGrid(s[Index(col, row, cols + 2) := v], cols, rows)
    ensures Cell(s[Index(col, row, cols + 2) := v], cols, rows, c, r) ==
      if c == col && r == row then v else Cell(s, cols, rows, c, r)
  {
    IndexInBounds(cols, rows, col, row);
    IndexInBounds(cols, rows, c, r);
    IndexInjective(cols + 2, c, r, col, row);
  }

  /** Two buffers agree on every logical cell. */
  ghost predicate SameLogical(s: seq<int>, t: seq<int>, cols: int, rows: int)
    requires IsGrid(s, cols, rows) && IsGrid(t, cols, rows)
  {
    forall col, row :: InLogical(cols, rows, col, row) ==>
      Cell(s, cols, rows, col, row) == Cell(t, cols, rows, col, row)
  }

  /** Every cell holds a state 0 or 1. */
  ghost predicate AllBinary(s: seq<int>)
  {
    forall k :: 0 <= k < |s| ==> s[k] == 0 || s[k] == 1
  }

  /** In a buffer of 0/1 states every cell is 0 or 1. */
  lemma CellBinary(s: seq<int>, cols: int, rows: int, col: int, row: int)
    requires IsGrid(s, cols, rows) && AllBinary(s) && InPadded(cols, rows, col, row)
    ensures Cell(s, cols, rows, col, row) == 0 || Cell(s, cols, rows, col, row) == 1
  {
    IndexInBounds(cols, rows, col, row);
  }

  /** Two buffers of the same dimensions that agree on every cell are equal. */
  lemma {:induction false} CellExtensionality(s: seq<int>, t: seq<int>, cols: int, rows: int)
    requires IsGrid(s, cols, rows) && IsGrid(t, cols, rows)
    requires forall col, row :: InPadded(cols, rows, col, row) ==>
      Cell(s, cols, rows, col, row) == Cell(t, cols, rows, col, row)
    ensures s == t
  {
    forall k | 0 <= k < |s|
      ensures s[k] == t[k]
    {
      IndexOnto(cols, rows, k);
      assert Cell(s, cols, rows, k % (cols + 2), k / (cols + 2)) == Cell(t, cols, rows, k % (cols + 2), k / (cols + 2));
    }
  }
}
