// fillPadding: the border of the buffer mirrors the opposite logical edges,
// which makes the logical grid a torus.
module Padding {
  import opened Grid

  /** The logical coordinate (1..n) that coordinate x stands for on a torus of size n. */
  function Wrap(x: int, n: int): (w: int)
    requires n >= 1
    ensures 1 <= w <= n
    ensures 1 <= x <= n ==> w == x
    ensures x == 0 ==> w == n
    ensures x == n + 1 ==> w == 1
  {
    (x - 1) % n + 1
  }

  /**
   * The padding invariant, edge by edge: row 0 repeats logical row `rows`,
   * row rows+1 repeats logical row 1, column 0 repeats logical column `cols`,
   * column cols+1 repeats logical column 1, and each corner repeats the
   * diagonally opposite logical corner.
   */
  ghost predicate Mirrored(s: seq<int>, cols: int, rows: int)
    requires IsGrid(s, cols, rows)
  {
    (forall col :: 1 <= col <= cols ==>
      Cell(s, cols, rows, col, 0) == Cell(s, cols, rows, col, rows) &&
      Cell(s, cols, rows, col, rows + 1) == Cell(s, cols, rows, col, 1)) &&
    (forall row :: 1 <= row <= rows ==>
      Cell(s, cols, rows, 0, row) == Cell(s, cols, rows, cols, row) &&
      Cell(s, cols, rows, cols + 1, row) == Cell(s, cols, rows, 1, row)) &&
    (forall col, row :: (col == 0 || col == cols + 1) && (row == 0 || row == rows + 1) ==>
      Cell(s, cols, rows, col, row) ==
        Cell(s, cols, rows, if col == 0 then cols else 1, if row == 0 then rows else 1))
  }

  /** Every cell of t, logical or padding, holds the cell of s at its wrapped coordinates. */
  ghost predicate Wrapped(t: seq<int>, s: seq<int>, cols: int, rows: int)
    requires IsGrid(t, cols, rows) && IsGrid(s, cols, rows)
  {
    forall col, row :: InPadded(cols, rows, col, row) ==>
      Cell(t, cols, rows, col, row) == Cell(s, cols, rows, Wrap(col, cols), Wrap(row, rows))
  }

  /** The edge-by-edge invariant says exactly that every cell equals its wrapped logical cell. */
  lemma MirroredIffSelfWrapped(s: seq<int>, cols: int, rows: int)
    requires IsGrid(s, cols, rows)
    ensures Mirrored(s, cols, rows) <==> Wrapped(s, s, cols, rows)
  {
    if Mirrored(s, cols, rows) {
      forall col, row | InPadded(cols, rows, col, row)
        ensures Cell(s, cols, rows, col, row) == Cell(s, cols, rows, Wrap(col, cols), Wrap(row, rows))
      {
        if 1 <= row <= rows && 1 <= col <= cols {
        } else if 1 <= row <= rows {
        } else if 1 <= col <= cols {
        } else {
        }
      }
    }
    if Wrapped(s, s, cols, rows) {
      assert Cell(s, cols, rows, 0, 0) == Cell(s, cols, rows, Wrap(0, cols), Wrap(0, rows));
      assert Cell(s, cols, rows, cols + 1, 0) == Cell(s, cols, rows, Wrap(cols + 1, cols), Wrap(0, rows));
      assert Cell(s, cols, rows, 0, rows + 1) == Cell(s, cols, rows, Wrap(0, cols), Wrap(rows + 1, rows));
      assert Cell(s, cols, rows, cols + 1, rows + 1) == Cell(s, cols, rows, Wrap(cols + 1, cols), Wrap(rows + 1, rows));
      forall col | 1 <= col <= cols
        ensures Cell(s, cols, rows, col, 0) == Cell(s, cols, rows, col, rows)
        ensures Cell(s, cols, rows, col, rows + 1) == Cell(s, cols, rows, col, 1)
      {
        assert Cell(s, cols, rows, col, 0) == Cell(s, cols, rows, Wrap(col, cols), Wrap(0, rows));
        assert Cell(s, cols, rows, col, rows + 1) == Cell(s, cols, rows, Wrap(col, cols), Wrap(rows + 1, rows));
      }
      forall row | 1 <= row <= rows
        ensures Cell(s, cols, rows, 0, row) == Cell(s, cols, rows, cols, row)
        ensures Cell(s, cols, rows, cols + 1, row) == Cell(s, cols, rows, 1, row)
      {
        assert Cell(s, cols, rows, 0, row) == Cell(s, cols, rows, Wrap(0, cols), Wrap(row, rows));
        assert Cell(s, cols, rows, cols + 1, row) == Cell(s, cols, rows, Wrap(cols + 1, cols), Wrap(row, rows));
      }
    }
  }

  /** A buffer wrapped from s keeps the logical cells of s and satisfies the padding invariant. */
  lemma WrappedKeepsLogicalAndMirrors(t: seq<int>, s: seq<int>, cols: int, rows: int)
    requires IsGrid(t, cols, rows) && IsGrid(s, cols, rows)
    requires Wrapped(t, s, cols, rows)
    ensures SameLogical(t, s, cols, rows)
    ensures Mirrored(t, cols, rows)
  {
    forall col, row | InLogical(cols, rows, col, row)
      ensures Cell(t, cols, rows, col, row) == Cell(s, cols, rows, col, row)
    {
      assert InPadded(cols, rows, col, row);
    }
    forall col, row | InPadded(cols, rows, col, row)
      ensures Cell(t, cols, rows, col, row) == Cell(t, cols, rows, Wrap(col, cols), Wrap(row, rows))
    {
      var c, r := Wrap(col, cols), Wrap(row, rows);
      assert Cell(t, cols, rows, c, r) == Cell(s, cols, rows, Wrap(c, cols), Wrap(r, rows));
    }
    MirroredIffSelfWrapped(t, cols, rows);
  }

  /** A buffer satisfying the padding invariant is determined by its logical cells. */
  lemma PaddingDetermined(t1: seq<int>, t2: seq<int>, cols: int, rows: int)
    requires IsGrid(t1, cols, rows) && IsGrid(t2, cols, rows)
    requires Mirrored(t1, cols, rows) && Mirrored(t2, cols, rows)
    requires SameLogical(t1, t2, cols, rows)
    ensures t1 == t2
  {
    MirroredIffSelfWrapped(t1, cols, rows);
    MirroredIffSelfWrapped(t2, cols, rows);
    forall col, row | InPadded(cols, rows, col, row)
      ensures Cell(t1, cols, rows, col, row) == Cell(t2, cols, rows, col, row)
    {
      assert InLogical(cols, rows, Wrap(col, cols), Wrap(row, rows));
    }
    CellExtensionality(t1, t2, cols, rows);
  }

  /**
   * The padded buffer depends only on the logical cells it was computed from:
   * whatever the old border held, the result is the same.
   */
  lemma PaddingDependsOnlyOnLogical(s1: seq<int>, s2: seq<int>, t1: seq<int>, t2: seq<int>, cols: int, rows: int)
    requires IsGrid(s1, cols, rows) && IsGrid(s2, cols, rows)
    requires IsGrid(t1, cols, rows) && IsGrid(t2, cols, rows)
    requires SameLogical(s1, s2, cols, rows)
    requires Wrapped(t1, s1, cols, rows) && Wrapped(t2, s2, cols, rows)
    ensures t1 == t2
  {
    WrappedKeepsLogicalAndMirrors(t1, s1, cols, rows);
    WrappedKeepsLogicalAndMirrors(t2, s2, cols, rows);
    PaddingDetermined(t1, t2, cols, rows);
  }

  /** Refreshing the padding a second time changes nothing. */
  lemma PaddingIdempotent(s: seq<int>, t: seq<int>, u: seq<int>, cols: int, rows: int)
    requires IsGrid(s, cols, rows) && IsGrid(t, cols, rows) && IsGrid(u, cols, rows)
    requires Wrapped(t, s, cols, rows) && Wrapped(u, t, cols, rows)
    ensures u == t
  {
    WrappedKeepsLogicalAndMirrors(t, s, cols, rows);
    WrappedKeepsLogicalAndMirrors(u, t, cols, rows);
    PaddingDetermined(u, t, cols, rows);
  }

  /** The buffer after the first loop of fillPadding has run for columns 1 .. i-1. */
  ghost function AfterRowCopies(s0: seq<int>, cols: int, rows: int, i: int, col: int, row: int): int
    requires IsGrid(s0, cols, rows) && InPadded(cols, rows, col, row)
  {
    if 1 <= col < i && row == 0 then Cell(s0, cols, rows, col, rows)
    else if 1 <= col < i && row == rows + 1 then Cell(s0, cols, rows, col, 1)
    else Cell(s0, cols, rows, col, row)
  }

  /** The buffer after the second loop of fillPadding has run for rows 1 .. j-1. */
  ghost function AfterColumnCopies(s1: seq<int>, cols: int, rows: int, j: int, col: int, row: int): int
    requires IsGrid(s1, cols, rows) && InPadded(cols, rows, col, row)
  {
    if 1 <= row < j && col == 0 then Cell(s1, cols, rows, cols, row)
    else if 1 <= row < j && col == cols + 1 then Cell(s1, cols, rows, 1, row)
    else Cell(s1, cols, rows, col, row)
  }

  /** The buffer after the four corner writes of fillPadding. */
  ghost function AfterCorners(s2: seq<int>, cols: int, rows: int, col: int, row: int): int
    requires IsGrid(s2, cols, rows) && InPadded(cols, rows, col, row)
  {
    if col == 0 && row == 0 then Cell(s2, cols, rows, cols, rows)
    else if col == cols + 1 && row == 0 then Cell(s2, cols, rows, 1, rows)
    else if col == 0 && row == rows + 1 then Cell(s2, cols, rows, cols, 1)
    else if col == cols + 1 && row == rows + 1 then Cell(s2, cols, rows, 1, 1)
    else Cell(s2, cols, rows, col, row)
  }

  /**
   * fillPadding: copies the opposite logical edges into the border rows and
   * columns, then the four corners. The first loop's last round (i = cols+1)
   * reads the border cell (cols+1, rows) before it is refreshed; the corner
   * write (cols+1, 0) afterwards overwrites what that round stored.
   */
  method FillPadding(arr: array<int>, cols: int, rows: int)
    requires IsGrid(arr[..], cols, rows)
    modifies arr
    ensures Wrapped(arr[..], old(arr[..]), cols, rows)
    ensures SameLogical(arr[..], old(arr[..]), cols, rows)
    ensures Mirrored(arr[..], cols, rows)
  {
    ghost var s0 := arr[..];
    var w := cols + 2;
    var i := 1;
    while i < cols + 2
      invariant 1 <= i <= cols + 2
      invariant IsGrid(arr[..], cols, rows)
      invariant forall col, row :: InPadded(cols, rows, col, row) ==>
        Cell(arr[..], cols, rows, col, row) == AfterRowCopies(s0, cols, rows, i, col, row)
    {
      ghost var before := arr[..];
      IndexInBounds(cols, rows, i, 0);
      IndexInBounds(cols, rows, i, rows);
      arr[Index(i, 0, w)] := arr[Index(i, rows, w)];
      ghost var mid := arr[..];
      IndexInBounds(cols, rows, i, rows + 1);
      IndexInBounds(cols, rows, i, 1);
      arr[Index(i, rows + 1, w)] := arr[Index(i, 1, w)];
      RowCopyStep(s0, before, mid, arr[..], cols, rows, i);
      i := i + 1;
    }
    ghost var s1 := arr[..];
    var j := 1;
    while j < rows + 2
      invariant 1 <= j <= rows + 2
      invariant IsGrid(arr[..], cols, rows)
      invariant forall col, row :: InPadded(cols, rows, col, row) ==>
        Cell(arr[..], cols, rows, col, row) == AfterColumnCopies(s1, cols, rows, j, col, row)
    {
      ghost var before := arr[..];
      IndexInBounds(cols, rows, 0, j);
      IndexInBounds(cols, rows, cols, j);
      arr[Index(0, j, w)] := arr[Index(cols, j, w)];
      ghost var mid := arr[..];
      IndexInBounds(cols, rows, cols + 1, j);
      IndexInBounds(cols, rows, 1, j);
      arr[Index(cols + 1, j, w)] := arr[Index(1, j, w)];
      ColumnCopyStep(s1, before, mid, arr[..], cols, rows, j);
      j := j + 1;
    }
    ghost var s2 := arr[..];
    CornerWrites(arr, cols, rows);
    FillPaddingResult(s0, s1, s2, arr[..], cols, rows);
    WrappedKeepsLogicalAndMirrors(arr[..], s0, cols, rows);
  }

  /** One round of the first loop of fillPadding: column i of rows 0 and rows+1. */
  lemma RowCopyStep(s0: seq<int>, before: seq<int>, mid: seq<int>, after: seq<int>, cols: int, rows: int, i: int)
    requires IsGrid(s0, cols, rows) && IsGrid(before, cols, rows)
    requires 1 <= i < cols + 2
    requires forall col, row :: InPadded(cols, rows, col, row) ==>
      Cell(before, cols, rows, col, row) == AfterRowCopies(s0, cols, rows, i, col, row)
    requires IsGrid(mid, cols, rows) && IsGrid(after, cols, rows)
    requires 0 <= Index(i, 0, cols + 2) < |before| && 0 <= Index(i, rows + 1, cols + 2) < |before|
    requires mid == before[Index(i, 0, cols + 2) := Cell(before, cols, rows, i, rows)]
    requires after == mid[Index(i, rows + 1, cols + 2) := Cell(mid, cols, rows, i, 1)]
    ensures forall col, row :: InPadded(cols, rows, col, row) ==>
      Cell(after, cols, rows, col, row) == AfterRowCopies(s0, cols, rows, i + 1, col, row)
  {
    CellAfterWrite(before, cols, rows, i, 0, Cell(before, cols, rows, i, rows));
    CellAfterWrite(mid, cols, rows, i, rows + 1, Cell(mid, cols, rows, i, 1));
  }

  /** One round of the second loop of fillPadding: row j of columns 0 and cols+1. */
  lemma ColumnCopyStep(s1: seq<int>, before: seq<int>, mid: seq<int>, after: seq<int>, cols: int, rows: int, j: int)
    requires IsGrid(s1, cols, rows) && IsGrid(before, cols, rows)
    requires 1 <= j < rows + 2
    requires forall col, row :: InPadded(cols, rows, col, row) ==>
      Cell(before, cols, rows, col, row) == AfterColumnCopies(s1, cols, rows, j, col, row)
    requires IsGrid(mid, cols, rows) && IsGrid(after, cols, rows)
    requires 0 <= Index(0, j, cols + 2) < |before| && 0 <= Index(cols + 1, j, cols + 2) < |before|
    requires mid == before[Index(0, j, cols + 2) := Cell(before, cols, rows, cols, j)]
    requires after == mid[Index(cols + 1, j, cols + 2) := Cell(mid, cols, rows, 1, j)]
    ensures forall col, row :: InPadded(cols, rows, col, row) ==>
      Cell(after, cols, rows, col, row) == AfterColumnCopies(s1, cols, rows, j + 1, col, row)
  {
    var v0 := Cell(before, cols, rows, cols, j);
    var v1 := Cell(mid, cols, rows, 1, j);
    CellAfterWriteAt(before, cols, rows, 0, j, v0, 1, j);
    forall col, row | InPadded(cols, rows, col, row)
      ensures Cell(after, cols, rows, col, row) == AfterColumnCopies(s1, cols, rows, j + 1, col, row)
    {
      CellAfterWriteAt(before, cols, rows, 0, j, v0, col, row);
      CellAfterWriteAt(mid, cols, rows, cols + 1, j, v1, col, row);
    }
  }

  /** The four corner writes at the end of fillPadding. */
  method CornerWrites(arr: array<int>, cols: int, rows: int)
    requires IsGrid(arr[..], cols, rows)
    modifies arr
    ensures IsGrid(arr[..], cols, rows)
    ensures forall col, row :: InPadded(cols, rows, col, row) ==>
      Cell(arr[..], cols, rows, col, row) == AfterCorners(old(arr[..]), cols, rows, col, row)
  {
    var w := cols + 2;
    CellAfterWrite(arr[..], cols, rows, 0, 0, Cell(arr[..], cols, rows, cols, rows));
    arr[Index(0, 0, w)] := arr[Index(cols, rows, w)];
    CellAfterWrite(arr[..], cols, rows, cols + 1, 0, Cell(arr[..], cols, rows, 1, rows));
    arr[Index(cols + 1, 0, w)] := arr[Index(1, rows, w)];
    CellAfterWrite(arr[..], cols, rows, 0, rows + 1, Cell(arr[..], cols, rows, cols, 1));
    arr[Index(0, rows + 1, w)] := arr[Index(cols, 1, w)];
    CellAfterWrite(arr[..], cols, rows, cols + 1, rows + 1, Cell(arr[..], cols, rows, 1, 1));
    arr[Index(cols + 1, rows + 1, w)] := arr[Index(1, 1, w)];
  }

  /** The three phases of FillPadding together wrap every cell. */
  lemma FillPaddingResult(s0: seq<int>, s1: seq<int>, s2: seq<int>, s3: seq<int>, cols: int, rows: int)
    requires IsGrid(s0, cols, rows) && IsGrid(s1, cols, rows)
    requires IsGrid(s2, cols, rows) && IsGrid(s3, cols, rows)
    requires forall col, row :: InPadded(cols, rows, col, row) ==>
      Cell(s1, cols, rows, col, row) == AfterRowCopies(s0, cols, rows, cols + 2, col, row)
    requires forall col, row :: InPadded(cols, rows, col, row) ==>
      Cell(s2, cols, rows, col, row) == AfterColumnCopies(s1, cols, rows, rows + 2, col, row)
    requires forall col, row :: InPadded(cols, rows, col, row) ==>
      Cell(s3, cols, rows, col, row) == AfterCorners(s2, cols, rows, col, row)
    ensures Wrapped(s3, s0, cols, rows)
  {
    forall col, row | InPadded(cols, rows, col, row)
      ensures Cell(s3, cols, rows, col, row) == Cell(s0, cols, rows, Wrap(col, cols), Wrap(row, rows))
    {
      if row == 0 || row == rows + 1 {
        if col == 0 || col == cols + 1 {
          var c := if col == 0 then cols else 1;
          var r := if row == 0 then rows else 1;
          assert Cell(s1, cols, rows, c, r) == Cell(s0, cols, rows, c, r);
          assert Cell(s2, cols, rows, c, r) == Cell(s1, cols, rows, c, r);
        } else {
          assert Cell(s2, cols, rows, col, row) == Cell(s1, cols, rows, col, row);
        }
      } else if col == 0 || col == cols + 1 {
        var c := if col == 0 then cols else 1;
        assert Cell(s1, cols, rows, c, row) == Cell(s0, cols, rows, c, row);
      }
    }
  }
}
