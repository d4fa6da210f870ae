// One generation of the simulation (the body of main's generation loop) and
// the initial random fill (initRandom), with the squares each one paints.
module Simulation {
  import opened Grid
  import opened Rules
  import opened Padding
  import opened Neighbours

  /** A square painted over logical cell (col, row). */
  datatype Draw = Draw(col: int, row: int, colour: Colour)

  /** The state of logical cell (col, row) one generation after s. */
  ghost function NextCell(s: seq<int>, cols: int, rows: int, col: int, row: int): int
    requires IsGrid(s, cols, rows) && InLogical(cols, rows, col, row)
  {
    NextState(Cell(s, cols, rows, col, row), MooreSum(s, cols, rows, col, row))
  }

  /**
   * t is the generation after s: each logical cell follows the rule applied
   * to s alone, and the padding of t is filled.
   */
  ghost predicate IsNextGeneration(t: seq<int>, s: seq<int>, cols: int, rows: int)
    requires IsGrid(t, cols, rows) && IsGrid(s, cols, rows)
  {
    (forall col, row :: InLogical(cols, rows, col, row) ==>
      Cell(t, cols, rows, col, row) == NextCell(s, cols, rows, col, row)) &&
    Mirrored(t, cols, rows)
  }

  /** The next generation is a function of the current buffer. */
  lemma NextGenerationDeterministic(t1: seq<int>, t2: seq<int>, s: seq<int>, cols: int, rows: int)
    requires IsGrid(t1, cols, rows) && IsGrid(t2, cols, rows) && IsGrid(s, cols, rows)
    requires IsNextGeneration(t1, s, cols, rows) && IsNextGeneration(t2, s, cols, rows)
    ensures t1 == t2
  {
    PaddingDetermined(t1, t2, cols, rows);
  }

  /** Every logical cell of t follows the rule applied to its toroidal count in s. */
  ghost predicate FollowsToroidalRule(t: seq<int>, s: seq<int>, cols: int, rows: int)
    requires IsGrid(t, cols, rows) && IsGrid(s, cols, rows)
  {
    forall col, row :: InLogical(cols, rows, col, row) ==>
      Cell(t, cols, rows, col, row) ==
        NextState(Cell(s, cols, rows, col, row), TorusCount(s, cols, rows, col, row))
  }

  /** When the current padding is filled, each cell follows the rule applied to its toroidal count. */
  lemma NextGenerationIsToroidal(t: seq<int>, s: seq<int>, cols: int, rows: int)
    requires IsGrid(t, cols, rows) && IsGrid(s, cols, rows)
    requires Mirrored(s, cols, rows) && IsNextGeneration(t, s, cols, rows)
    ensures FollowsToroidalRule(t, s, cols, rows)
  {
    forall col, row | InLogical(cols, rows, col, row)
      ensures MooreSum(s, cols, rows, col, row) == TorusCount(s, cols, rows, col, row)
    {
      PaddedCountIsToroidal(s, cols, rows, col, row);
    }
  }

  /** Every cell of a next generation, padding included, is 0 or 1. */
  lemma NextGenerationIsBinary(t: seq<int>, s: seq<int>, cols: int, rows: int)
    requires IsGrid(t, cols, rows) && IsGrid(s, cols, rows)
    requires IsNextGeneration(t, s, cols, rows)
    ensures AllBinary(t)
  {
    LogicalBinaryIsAllBinary(t, cols, rows);
  }

  /** Cell (col, row) comes before cell (i, j) in the column-then-row order of the loops. */
  predicate Precedes(col: int, row: int, i: int, j: int)
  {
    col < i || (col == i && row < j)
  }

  /** The square the step paints over logical cell (col, row) of s. */
  ghost function ExpectedPaint(s: seq<int>, cols: int, rows: int, col: int, row: int): Option<Colour>
    requires IsGrid(s, cols, rows) && InLogical(cols, rows, col, row)
  {
    PaintFor(Cell(s, cols, rows, col, row), NextCell(s, cols, rows, col, row))
  }

  /** The step loops have written every logical cell before (i, j). */
  ghost predicate CellsDoneUpTo(t: seq<int>, s: seq<int>, cols: int, rows: int, i: int, j: int)
    requires IsGrid(t, cols, rows) && IsGrid(s, cols, rows)
  {
    forall col, row :: InLogical(cols, rows, col, row) && Precedes(col, row, i, j) ==>
      Cell(t, cols, rows, col, row) == NextCell(s, cols, rows, col, row)
  }

  /**
   * draws lists, in loop order and once each, the squares the step paints
   * over the logical cells before (i, j).
   */
  ghost predicate DrawsDoneUpTo(draws: seq<Draw>, s: seq<int>, cols: int, rows: int, i: int, j: int)
    requires IsGrid(s, cols, rows)
  {
    (forall p :: 0 <= p < |draws| ==>
      InLogical(cols, rows, draws[p].col, draws[p].row) && Precedes(draws[p].col, draws[p].row, i, j)) &&
    (forall p, q :: 0 <= p < q < |draws| ==> Precedes(draws[p].col, draws[p].row, draws[q].col, draws[q].row)) &&
    (forall col, row, colour :: InLogical(cols, rows, col, row) ==>
      (Draw(col, row, colour) in draws <==>
        Precedes(col, row, i, j) && ExpectedPaint(s, cols, rows, col, row) == Some(colour)))
  }

  /** Writing cell (i, j) extends the written part by that cell. */
  lemma CellStepDone(t: seq<int>, s: seq<int>, cols: int, rows: int, i: int, j: int, v: int)
    requires IsGrid(t, cols, rows) && IsGrid(s, cols, rows) && InLogical(cols, rows, i, j)
    requires CellsDoneUpTo(t, s, cols, rows, i, j)
    requires v == NextCell(s, cols, rows, i, j)
    ensures 0 <= Index(i, j, cols + 2) < |t|
    ensures IsGrid(t[Index(i, j, cols + 2) := v], cols, rows)
    ensures CellsDoneUpTo(t[Index(i, j, cols + 2) := v], s, cols, rows, i, j + 1)
  {
    IndexInBounds(cols, rows, i, j);
    forall col, row | InLogical(cols, rows, col, row) && Precedes(col, row, i, j + 1)
      ensures Cell(t[Index(i, j, cols + 2) := v], cols, rows, col, row) == NextCell(s, cols, rows, col, row)
    {
      CellAfterWriteAt(t, cols, rows, i, j, v, col, row);
    }
  }

  /** Painting cell (i, j) as ExpectedPaint says extends the painted part by that cell. */
  lemma DrawStepDone(draws: seq<Draw>, s: seq<int>, cols: int, rows: int, i: int, j: int)
    requires IsGrid(s, cols, rows) && InLogical(cols, rows, i, j)
    requires DrawsDoneUpTo(draws, s, cols, rows, i, j)
    ensures DrawsDoneUpTo(draws + (match ExpectedPaint(s, cols, rows, i, j)
                                    case Some(c) => [Draw(i, j, c)] case None => []),
                          s, cols, rows, i, j + 1)
  {
    var e := ExpectedPaint(s, cols, rows, i, j);
    var draws' := draws + (match e case Some(c) => [Draw(i, j, c)] case None => []);
    forall col, row, colour | InLogical(cols, rows, col, row)
      ensures Draw(col, row, colour) in draws' <==>
        Precedes(col, row, i, j + 1) && ExpectedPaint(s, cols, rows, col, row) == Some(colour)
    {
      if col == i && row == j {
        assert Draw(col, row, colour) !in draws;
      }
    }
  }

  /** t holds the same border cells as t0. */
  ghost predicate BorderKept(t: seq<int>, t0: seq<int>, cols: int, rows: int)
    requires IsGrid(t, cols, rows) && IsGrid(t0, cols, rows)
  {
    forall col, row :: InPadded(cols, rows, col, row) && !InLogical(cols, rows, col, row) ==>
      Cell(t, cols, rows, col, row) == Cell(t0, cols, rows, col, row)
  }

  /** Writing logical cell (i, j) leaves every border cell as it was. */
  lemma BorderStepKept(t: seq<int>, t0: seq<int>, cols: int, rows: int, i: int, j: int, v: int)
    requires IsGrid(t, cols, rows) && IsGrid(t0, cols, rows) && InLogical(cols, rows, i, j)
    requires BorderKept(t, t0, cols, rows)
    ensures 0 <= Index(i, j, cols + 2) < |t|
    ensures IsGrid(t[Index(i, j, cols + 2) := v], cols, rows)
    ensures BorderKept(t[Index(i, j, cols + 2) := v], t0, cols, rows)
  {
    IndexInBounds(cols, rows, i, j);
    forall col, row | InPadded(cols, rows, col, row) && !InLogical(cols, rows, col, row)
      ensures Cell(t[Index(i, j, cols + 2) := v], cols, rows, col, row) == Cell(t0, cols, rows, col, row)
    {
      CellAfterWriteAt(t, cols, rows, i, j, v, col, row);
    }
  }

  /** Finishing column i is the same as starting column i + 1. */
  lemma ColumnDone(t: seq<int>, s: seq<int>, draws: seq<Draw>, cols: int, rows: int, i: int)
    requires IsGrid(t, cols, rows) && IsGrid(s, cols, rows)
    requires CellsDoneUpTo(t, s, cols, rows, i, rows + 1)
    requires DrawsDoneUpTo(draws, s, cols, rows, i, rows + 1)
    ensures CellsDoneUpTo(t, s, cols, rows, i + 1, 1)
    ensures DrawsDoneUpTo(draws, s, cols, rows, i + 1, 1)
  {
    assert forall col, row :: InLogical(cols, rows, col, row) ==>
      Precedes(col, row, i + 1, 1) == Precedes(col, row, i, rows + 1);
  }

  /**
   * The nested loops of the generation step: every logical cell of
   * newcellArray gets the rule applied to cellArray, which is only read, and
   * the border of newcellArray is not written.
   */
  method ComputeLogicalCells(cellArray: array<int>, newcellArray: array<int>, cols: int, rows: int)
    returns (draws: seq<Draw>)
    requires IsGrid(cellArray[..], cols, rows) && IsGrid(newcellArray[..], cols, rows)
    requires cellArray != newcellArray
    modifies newcellArray
    ensures CellsDoneUpTo(newcellArray[..], cellArray[..], cols, rows, cols + 1, 1)
    ensures DrawsDoneUpTo(draws, cellArray[..], cols, rows, cols + 1, 1)
    ensures BorderKept(newcellArray[..], old(newcellArray[..]), cols, rows)
  {
    ghost var s := cellArray[..];
    ghost var n0 := newcellArray[..];
    var w := cols + 2;
    draws := [];
    var i := 1;
    while i <= cols
      invariant 1 <= i <= cols + 1
      invariant IsGrid(newcellArray[..], cols, rows)
      invariant CellsDoneUpTo(newcellArray[..], s, cols, rows, i, 1)
      invariant DrawsDoneUpTo(draws, s, cols, rows, i, 1)
      invariant BorderKept(newcellArray[..], n0, cols, rows)
    {
      var j := 1;
      while j <= rows
        invariant 1 <= j <= rows + 1
        invariant IsGrid(newcellArray[..], cols, rows)
        invariant CellsDoneUpTo(newcellArray[..], s, cols, rows, i, j)
        invariant DrawsDoneUpTo(draws, s, cols, rows, i, j)
        invariant BorderKept(newcellArray[..], n0, cols, rows)
      {
        IndexInBounds(cols, rows, i, j);
        var i1D := Index(i, j, w);
        var nNeighbour := CountNeighboursPadded(i, j, cellArray, cols, rows);
        var newCell := NextState(cellArray[i1D], nNeighbour);
        CellStepDone(newcellArray[..], s, cols, rows, i, j, newCell);
        DrawStepDone(draws, s, cols, rows, i, j);
        BorderStepKept(newcellArray[..], n0, cols, rows, i, j, newCell);
        newcellArray[i1D] := newCell;
        if newcellArray[i1D] == 0 && cellArray[i1D] != 0 {
          draws := draws + [Draw(i, j, Black)];
        } else if newcellArray[i1D] == 1 {
          draws := draws + [Draw(i, j, White)];
        }
        j := j + 1;
      }
      ColumnDone(newcellArray[..], s, draws, cols, rows, i);
      i := i + 1;
    }
  }

  /**
   * draws lists, in loop order and once each, the squares painted when the
   * logical cells go from s to t: black over a nonzero cell that became 0,
   * white over every cell that is now 1.
   */
  ghost predicate PaintsMatch(draws: seq<Draw>, s: seq<int>, t: seq<int>, cols: int, rows: int)
    requires IsGrid(s, cols, rows) && IsGrid(t, cols, rows)
  {
    (forall p :: 0 <= p < |draws| ==> InLogical(cols, rows, draws[p].col, draws[p].row)) &&
    (forall p, q :: 0 <= p < q < |draws| ==> Precedes(draws[p].col, draws[p].row, draws[q].col, draws[q].row)) &&
    (forall col, row, colour :: InLogical(cols, rows, col, row) ==>
      (Draw(col, row, colour) in draws <==>
        PaintFor(Cell(s, cols, rows, col, row), Cell(t, cols, rows, col, row)) == Some(colour)))
  }

  /** The loops, the padding refresh and the copy together give the next generation. */
  lemma StepResult(s: seq<int>, logical: seq<int>, t: seq<int>, draws: seq<Draw>, cols: int, rows: int)
    requires IsGrid(s, cols, rows) && IsGrid(logical, cols, rows) && IsGrid(t, cols, rows)
    requires CellsDoneUpTo(logical, s, cols, rows, cols + 1, 1)
    requires DrawsDoneUpTo(draws, s, cols, rows, cols + 1, 1)
    requires SameLogical(t, logical, cols, rows) && Mirrored(t, cols, rows)
    ensures IsNextGeneration(t, s, cols, rows)
    ensures PaintsMatch(draws, s, t, cols, rows)
  {
    assert forall col, row :: InLogical(cols, rows, col, row) ==> Precedes(col, row, cols + 1, 1);
  }

  /**
   * One generation: every logical cell of a fresh buffer gets the rule applied
   * to the current buffer, the fresh buffer's padding is filled, and it is
   * copied over the current buffer. Returns the squares painted.
   */
  method Step(cellArray: array<int>, cols: int, rows: int) returns (draws: seq<Draw>)
    requires IsGrid(cellArray[..], cols, rows)
    modifies cellArray
    ensures IsGrid(cellArray[..], cols, rows)
    ensures IsNextGeneration(cellArray[..], old(cellArray[..]), cols, rows)
    ensures Mirrored(old(cellArray[..]), cols, rows) ==>
      FollowsToroidalRule(cellArray[..], old(cellArray[..]), cols, rows)
    ensures AllBinary(cellArray[..])
    ensures PaintsMatch(draws, old(cellArray[..]), cellArray[..], cols, rows)
  {
    ghost var s := cellArray[..];
    var newcellArray := new int[cellArray.Length];
    draws := ComputeLogicalCells(cellArray, newcellArray, cols, rows);
    ghost var logical := newcellArray[..];
    FillPadding(newcellArray, cols, rows);
    StepResult(s, logical, newcellArray[..], draws, cols, rows);
    NextGenerationIsBinary(newcellArray[..], s, cols, rows);
    if Mirrored(s, cols, rows) {
      NextGenerationIsToroidal(newcellArray[..], s, cols, rows);
    }
    ghost var t := newcellArray[..];
    assert IsNextGeneration(t, s, cols, rows) && PaintsMatch(draws, s, t, cols, rows);
    forall k | 0 <= k < cellArray.Length {
      cellArray[k] := newcellArray[k];
    }
    assert cellArray[..] == t;
  }

  /**
   * initRandom: each logical cell is set to 1 where the coin `alive` says so
   * (painting it white) and to 0 elsewhere, then the padding is filled.
   */
  method InitRandom(cellArray: array<int>, cols: int, rows: int, alive: (int, int) -> bool)
    returns (draws: seq<Draw>)
    requires IsGrid(cellArray[..], cols, rows)
    modifies cellArray
    ensures IsGrid(cellArray[..], cols, rows)
    ensures forall col, row :: InLogical(cols, rows, col, row) ==>
      Cell(cellArray[..], cols, rows, col, row) == if alive(col, row) then 1 else 0
    ensures Mirrored(cellArray[..], cols, rows)
    ensures AllBinary(cellArray[..])
    ensures forall p :: 0 <= p < |draws| ==> InLogical(cols, rows, draws[p].col, draws[p].row)
    ensures forall p, q :: 0 <= p < q < |draws| ==> Precedes(draws[p].col, draws[p].row, draws[q].col, draws[q].row)
    ensures forall col, row, colour :: InLogical(cols, rows, col, row) ==>
      (Draw(col, row, colour) in draws <==> colour == White && alive(col, row))
  {
    var w := cols + 2;
    draws := [];
    var i := 1;
    while i < cols + 1
      invariant 1 <= i <= cols + 1
      invariant IsGrid(cellArray[..], cols, rows)
      invariant forall col, row :: InLogical(cols, rows, col, row) && col < i ==>
        Cell(cellArray[..], cols, rows, col, row) == if alive(col, row) then 1 else 0
      invariant forall p :: 0 <= p < |draws| ==>
        InLogical(cols, rows, draws[p].col, draws[p].row) && Precedes(draws[p].col, draws[p].row, i, 1)
      invariant forall p, q :: 0 <= p < q < |draws| ==> Precedes(draws[p].col, draws[p].row, draws[q].col, draws[q].row)
      invariant forall col, row, colour :: InLogical(cols, rows, col, row) ==>
        (Draw(col, row, colour) in draws <==> col < i && colour == White && alive(col, row))
    {
      var j := 1;
      while j < rows + 1
        invariant 1 <= j <= rows + 1
        invariant IsGrid(cellArray[..], cols, rows)
        invariant forall col, row :: InLogical(cols, rows, col, row) && (col < i || (col == i && row < j)) ==>
          Cell(cellArray[..], cols, rows, col, row) == if alive(col, row) then 1 else 0
        invariant forall p :: 0 <= p < |draws| ==>
          InLogical(cols, rows, draws[p].col, draws[p].row) && Precedes(draws[p].col, draws[p].row, i, j)
        invariant forall p, q :: 0 <= p < q < |draws| ==> Precedes(draws[p].col, draws[p].row, draws[q].col, draws[q].row)
        invariant forall col, row, colour :: InLogical(cols, rows, col, row) ==>
          (Draw(col, row, colour) in draws <==>
            (col < i || (col == i && row < j)) && colour == White && alive(col, row))
      {
        IndexInBounds(cols, rows, i, j);
        ghost var before := cellArray[..];
        if alive(i, j) {
          cellArray[Index(i, j, w)] := 1;
          CellAfterWrite(before, cols, rows, i, j, 1);
          draws := draws + [Draw(i, j, White)];
        } else {
          cellArray[Index(i, j, w)] := 0;
          CellAfterWrite(before, cols, rows, i, j, 0);
        }
        j := j + 1;
      }
      i := i + 1;
    }
    FillPadding(cellArray, cols, rows);
    LogicalBinaryIsAllBinary(cellArray[..], cols, rows);
  }

  /** A buffer whose logical cells are 0/1 and whose padding is filled holds only 0/1. */
  lemma LogicalBinaryIsAllBinary(t: seq<int>, cols: int, rows: int)
    requires IsGrid(t, cols, rows) && Mirrored(t, cols, rows)
    requires forall col, row :: InLogical(cols, rows, col, row) ==>
      Cell(t, cols, rows, col, row) == 0 || Cell(t, cols, rows, col, row) == 1
    ensures AllBinary(t)
  {
    MirroredIffSelfWrapped(t, cols, rows);
    forall k | 0 <= k < |t|
      ensures t[k] == 0 || t[k] == 1
    {
      IndexOnto(cols, rows, k);
      var col, row := k % (cols + 2), k / (cols + 2);
      assert t[k] == Cell(t, cols, rows, col, row);
      assert InLogical(cols, rows, Wrap(col, cols), Wrap(row, rows));
    }
  }
}
