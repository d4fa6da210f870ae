// The per-cell rules of one generation: the B3/S23 transition (nextState)
// and the choice of square the step paints for a cell.
module Rules {

  /**
   * nextState: a dead (0) cell is born with exactly 3 live neighbours, a live
   * (1) cell survives with 2 or 3; every other input, including a current
   * state other than 0 and 1, gives a dead cell.
   */
  function NextState(currentState: int, nNeighbours: int): (r: int)
    ensures r == 0 || r == 1
    ensures r == 1 <==>
      (currentState == 0 && nNeighbours == 3) ||
      (currentState == 1 && (nNeighbours == 2 || nNeighbours == 3))
  {
    if currentState == 0 then
      (if nNeighbours == 3 then 1 else 0)
    else if currentState == 1 then
      (if nNeighbours == 2 || nNeighbours == 3 then 1 else 0)
    else
      0
  }

  datatype Colour = Black | White

  datatype Option<T> = None | Some(value: T)

  /**
   * The square the step paints for a cell that had state `before` and now has
   * state `after`: black over a cell that was nonzero and is now 0, white over
   * every cell that is now 1, nothing otherwise.
   */
  function PaintFor(before: int, after: int): (p: Option<Colour>)
    ensures (before == 0 || before == 1) && (after == 0 || after == 1) ==>
      (p == Some(Black) <==> before == 1 && after == 0) &&
      (p == Some(White) <==> after == 1) &&
      (p == None <==> before == 0 && after == 0) &&
      (before != after ==> p == Some(if after == 1 then White else Black))
  {
    if after == 0 && before != 0 then Some(Black)
    else if after == 1 then Some(White)
    else None
  }
}
