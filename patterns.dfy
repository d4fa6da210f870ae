// Two patterns with known behaviour under the generation step, on a 6 x 6
// torus: the 2 x 2 block, a still life, and the blinker, which returns to
// itself after two generations.
module Patterns {
  import opened Grid
  import opened Rules
  import opened Padding
  import opened Neighbours
  import opened Simulation

  /** The 6 x 6 buffer (8 x 8 with its border) holding 1 exactly at the cells `live` names. */
  function Board(live: (int, int) -> bool): (b: seq<int>)
    ensures IsGrid(b, 6, 6)
  {
    seq(BufferSize(6, 6), k => if live(k % 8, k / 8) then 1 else 0)
  }

  /** Live cells kept two cells away from the border, so the logical edges are empty. */
  ghost predicate Interior(live: (int, int) -> bool)
  {
    forall col, row :: live(col, row) ==> 2 <= col <= 5 && 2 <= row <= 5
  }

  /** Each cell of a board is 1 exactly where `live` holds. */
  lemma BoardCell(live: (int, int) -> bool, col: int, row: int)
    requires InPadded(6, 6, col, row)
    ensures Cell(Board(live), 6, 6, col, row) == if live(col, row) then 1 else 0
  {
    IndexInBounds(6, 6, col, row);
  }

  /** A board whose live cells stay off the logical edges has its padding filled (all 0). */
  lemma InteriorBoardMirrored(live: (int, int) -> bool)
    requires Interior(live)
    ensures Mirrored(Board(live), 6, 6)
  {
    forall col, row | InPadded(6, 6, col, row) && (col <= 1 || col >= 6 || row <= 1 || row >= 6)
      ensures Cell(Board(live), 6, 6, col, row) == 0
    {
      BoardCell(live, col, row);
    }
  }

  /** The generation after a board, read off the rule at every logical cell. */
  lemma BoardStep(before: (int, int) -> bool, after: (int, int) -> bool)
    requires Interior(before) && Interior(after)
    requires forall col, row :: InLogical(6, 6, col, row) ==>
      (after(col, row) <==> NextState(if before(col, row) then 1 else 0, LiveAround(before, col, row)) == 1)
    ensures IsNextGeneration(Board(after), Board(before), 6, 6)
  {
    InteriorBoardMirrored(after);
    forall col, row | InLogical(6, 6, col, row)
      ensures Cell(Board(after), 6, 6, col, row) == NextCell(Board(before), 6, 6, col, row)
    {
      forall x, y | col - 1 <= x <= col + 1 && row - 1 <= y <= row + 1
        ensures Cell(Board(before), 6, 6, x, y) == if before(x, y) then 1 else 0
      {
        BoardCell(before, x, y);
      }
      BoardCell(after, col, row);
    }
  }

  /** The number of live cells among the eight around (col, row). */
  function LiveAround(live: (int, int) -> bool, col: int, row: int): (n: int)
    ensures 0 <= n <= 8
  {
    (if live(col - 1, row - 1) then 1 else 0) + (if live(col, row - 1) then 1 else 0) +
    (if live(col + 1, row - 1) then 1 else 0) + (if live(col - 1, row) then 1 else 0) +
    (if live(col + 1, row) then 1 else 0) + (if live(col - 1, row + 1) then 1 else 0) +
    (if live(col, row + 1) then 1 else 0) + (if live(col + 1, row + 1) then 1 else 0)
  }

  /** The 2 x 2 block at columns and rows 2..3. */
  predicate InBlock(col: int, row: int)
  {
    2 <= col <= 3 && 2 <= row <= 3
  }

  /** The blinker lying along row 3. */
  predicate InRow(col: int, row: int)
  {
    row == 3 && 2 <= col <= 4
  }

  /** The blinker standing along column 3. */
  predicate InColumn(col: int, row: int)
  {
    col == 3 && 2 <= row <= 4
  }

  /** The block is a still life: it is its own next generation, and the only one. */
  lemma BlockIsStill(t: seq<int>)
    ensures IsNextGeneration(Board(InBlock), Board(InBlock), 6, 6)
    ensures IsGrid(t, 6, 6) && IsNextGeneration(t, Board(InBlock), 6, 6) ==> t == Board(InBlock)
  {
    BoardStep(InBlock, InBlock);
    if IsGrid(t, 6, 6) && IsNextGeneration(t, Board(InBlock), 6, 6) {
      NextGenerationDeterministic(t, Board(InBlock), Board(InBlock), 6, 6);
    }
  }

  /** The blinker turns from a row into a column and back. */
  lemma BlinkerFlips()
    ensures IsNextGeneration(Board(InColumn), Board(InRow), 6, 6)
    ensures IsNextGeneration(Board(InRow), Board(InColumn), 6, 6)
    ensures Board(InRow) != Board(InColumn)
  {
    BoardStep(InRow, InColumn);
    BoardStep(InColumn, InRow);
    BoardCell(InRow, 2, 3);
    BoardCell(InColumn, 2, 3);
  }

  /** Two generations after a blinker, the same blinker is back; one generation after, it is not. */
  lemma BlinkerHasPeriodTwo(t1: seq<int>, t2: seq<int>)
    requires IsGrid(t1, 6, 6) && IsGrid(t2, 6, 6)
    requires IsNextGeneration(t1, Board(InRow), 6, 6) && IsNextGeneration(t2, t1, 6, 6)
    ensures t1 == Board(InColumn) && t1 != Board(InRow)
    ensures t2 == Board(InRow)
  {
    BlinkerFlips();
    NextGenerationDeterministic(t1, Board(InColumn), Board(InRow), 6, 6);
    NextGenerationDeterministic(t2, Board(InRow), Board(InColumn), 6, 6);
  }
}
