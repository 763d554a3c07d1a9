/** Grid cells (`Position` in pizza.py) and their orthogonal neighbours. */
module Positions {

  /** A cell of the pizza. Equality is structural on (row, column), as the
      source's `__eq__` compares the two attributes. */
  datatype Position = Position(row: int, column: int)

  function Down(p: Position): Position { Position(p.row + 1, p.column) }
  function Up(p: Position): Position { Position(p.row - 1, p.column) }
  function Right(p: Position): Position { Position(p.row, p.column + 1) }
  function Left(p: Position): Position { Position(p.row, p.column - 1) }

  /** `q` differs from `p` by exactly one in exactly one coordinate. */
  predicate Adjacent(p: Position, q: Position) {
    (q.row == p.row && (q.column == p.column + 1 || q.column == p.column - 1)) ||
    (q.column == p.column && (q.row == p.row + 1 || q.row == p.row - 1))
  }

  /** The place of a neighbour in the fixed order down, up, right, left
      (4 for a cell that is not a neighbour). */
  function Rank(p: Position, q: Position): nat {
    if q == Down(p) then 0
    else if q == Up(p) then 1
    else if q == Right(p) then 2
    else if q == Left(p) then 3
    else 4
  }

  /** The cell lies in an R x C grid. */
  predicate InGrid(p: Position, R: int, C: int) {
    0 <= p.row < R && 0 <= p.column < C
  }

  /** Two positions are equal exactly when their rows and columns are. */
  lemma PositionEquality(p: Position, q: Position)
    ensures p == q <==> p.row == q.row && p.column == q.column
  {
  }

  /** `Position.neighbours(R, C)` as written: each of the four neighbours is
      appended when its guard holds, in the order down, up, right, left.
      The left guard is `column - 1 < C`, not `column - 1 >= 0`. */
  function Neighbours(p: Position, R: int, C: int): seq<Position> {
    (if p.row + 1 < R then [Down(p)] else []) +
    (if p.row - 1 >= 0 then [Up(p)] else []) +
    (if p.column + 1 < C then [Right(p)] else []) +
    (if p.column - 1 < C then [Left(p)] else [])
  }

  /** At most four neighbours, each one step away, in the order down, up,
      right, left, each present exactly when its guard holds. */
  lemma NeighboursSpec(p: Position, R: int, C: int)
    ensures var ns := Neighbours(p, R, C);
      && |ns| <= 4
      && (forall q :: q in ns ==> Adjacent(p, q))
      && (forall x, y :: 0 <= x < y < |ns| ==> Rank(p, ns[x]) < Rank(p, ns[y]))
      && (Down(p) in ns <==> p.row + 1 < R)
      && (Up(p) in ns <==> p.row - 1 >= 0)
      && (Right(p) in ns <==> p.column + 1 < C)
      && (Left(p) in ns <==> p.column - 1 < C)
  {
  }

  /** `neighbours(R, C)` as a function of the cell, as `slices` uses it. */
  function NeighboursIn(R: int, C: int): Position -> seq<Position> {
    p => Neighbours(p, R, C)
  }

  /** For a cell of the grid every neighbour has a row inside the grid and
      a column below C, but a cell of column 0 gets the off-grid left
      neighbour at column -1, and that is the only way to leave the grid. */
  lemma NeighboursOfGridCell(p: Position, R: int, C: int)
    requires InGrid(p, R, C)
    ensures forall q :: q in Neighbours(p, R, C) ==> 0 <= q.row < R && -1 <= q.column < C
    ensures forall q :: q in Neighbours(p, R, C) && !InGrid(q, R, C) ==> p.column == 0 && q == Left(p)
    ensures p.column == 0 ==> Position(p.row, -1) in Neighbours(p, R, C)
  {
  }

  /** The smallest grid exhibits the off-grid left neighbour. */
  lemma LeftEdgeNeighbourOffGrid()
    ensures Neighbours(Position(0, 0), 1, 1) == [Position(0, -1)]
    ensures !InGrid(Position(0, -1), 1, 1)
  {
  }

  /** `Position.neighbours` with the left guard the source evidently
      intended (`column - 1 >= 0`); every other guard and the order are
      unchanged. */
  function NeighboursInGrid(p: Position, R: int, C: int): seq<Position> {
    (if p.row + 1 < R then [Down(p)] else []) +
    (if p.row - 1 >= 0 then [Up(p)] else []) +
    (if p.column + 1 < C then [Right(p)] else []) +
    (if p.column - 1 >= 0 then [Left(p)] else [])
  }

  /** For a grid cell, the corrected list holds exactly the adjacent grid
      cells, still in the order down, up, right, left. */
  lemma NeighboursInGridSpec(p: Position, R: int, C: int)
    ensures var ns := NeighboursInGrid(p, R, C);
      && (InGrid(p, R, C) ==> forall q :: q in ns <==> InGrid(q, R, C) && Adjacent(p, q))
      && (forall x, y :: 0 <= x < y < |ns| ==> Rank(p, ns[x]) < Rank(p, ns[y]))
  {
  }

  /** The corrected neighbour list as a function of the cell. */
  function NeighboursInGridIn(R: int, C: int): Position -> seq<Position> {
    p => NeighboursInGrid(p, R, C)
  }

  /** The two neighbour lists differ at most in a trailing left neighbour:
      they agree when the column is at least 1 (and at most C), and
      otherwise the as-written list has the extra off-grid left cell. */
  lemma NeighboursDifferOnlyAtLeftEdge(p: Position, R: int, C: int)
    requires p.column <= C
    ensures p.column >= 1 ==> Neighbours(p, R, C) == NeighboursInGrid(p, R, C)
    ensures p.column < 1 ==> Neighbours(p, R, C) == NeighboursInGrid(p, R, C) + [Left(p)]
  {
  }

  /** Beyond the right edge the as-written guard fails: a cell of column
      greater than C gets no left neighbour, while the corrected guard
      keeps it. */
  lemma NeighboursBeyondRightEdge(p: Position, R: int, C: int)
    requires p.column > C && p.column >= 1
    ensures Left(p) !in Neighbours(p, R, C)
    ensures Left(p) in NeighboursInGrid(p, R, C)
  {
  }
}
