/**
 * Where a fired bullet appears next to the player's 2×2 block. The game
 * context of rats/src/game_context/mod.rs and the older one of
 * rats/src/game_context.rs share one offset table; the firing code of
 * rats/src/game_context/firing.rs has its own, which differs on the two
 * right-hand diagonals and refuses directions outside the eight.
 */
module Spawns {
  import opened Directions
  import opened Positions
  import opened EntityTypes
  import opened Optional
  import SizeWrapping

  /** The spawn cell of the `fire` of mod.rs and game_context.rs; an unnamed direction fires from the corner. */
  function FireCell(pos: Position, d: Direction, dims: Dimensions): (c: Position)
    requires ValidDims(dims)
    ensures InRange(pos, dims) ==> InRange(c, dims)
    ensures !IsNamed(d) ==> c == pos
  {
    var row, col := pos.row, pos.col;
    var rows, cols := dims.rows, dims.cols;
    if d == DOWN then Position(SizeWrapping.Inc(SizeWrapping.Inc(row, rows), rows), col)
    else if d == DOWN_LEFT then Position(SizeWrapping.Inc(row, rows), SizeWrapping.Dec(col, cols))
    else if d == DOWN_RIGHT then Position(SizeWrapping.Inc(SizeWrapping.Inc(row, rows), rows), SizeWrapping.Inc(SizeWrapping.Inc(col, cols), cols))
    else if d == UP then Position(SizeWrapping.Dec(row, rows), SizeWrapping.Inc(col, cols))
    else if d == UP_LEFT then Position(SizeWrapping.Dec(row, rows), SizeWrapping.Dec(col, cols))
    else if d == UP_RIGHT then Position(SizeWrapping.Dec(row, rows), SizeWrapping.Inc(col, cols))
    else if d == LEFT then Position(row, SizeWrapping.Dec(col, cols))
    else if d == RIGHT then Position(row, SizeWrapping.Inc(SizeWrapping.Inc(col, cols), cols))
    else Position(row, col)
  }

  /** The spawn cell of firing.rs's `fire`; no cell for a direction outside the eight. */
  function FiringCell(pos: Position, d: Direction, dims: Dimensions): (c: Option<Position>)
    requires ValidDims(dims)
    ensures c.Some? <==> IsNamed(d)
    ensures c.Some? && InRange(pos, dims) ==> InRange(c.value, dims)
  {
    var row, col := pos.row, pos.col;
    var rows, cols := dims.rows, dims.cols;
    if d == DOWN then Some(Position(SizeWrapping.Inc(SizeWrapping.Inc(row, rows), rows), col))
    else if d == DOWN_LEFT then Some(Position(SizeWrapping.Inc(row, rows), SizeWrapping.Dec(col, cols)))
    else if d == DOWN_RIGHT then Some(Position(SizeWrapping.Inc(row, rows), SizeWrapping.Inc(SizeWrapping.Inc(col, cols), cols)))
    else if d == UP then Some(Position(SizeWrapping.Dec(row, rows), SizeWrapping.Inc(col, cols)))
    else if d == UP_LEFT then Some(Position(SizeWrapping.Dec(row, rows), SizeWrapping.Dec(col, cols)))
    else if d == UP_RIGHT then Some(Position(SizeWrapping.Dec(row, rows), SizeWrapping.Inc(SizeWrapping.Inc(col, cols), cols)))
    else if d == LEFT then Some(Position(row, SizeWrapping.Dec(col, cols)))
    else if d == RIGHT then Some(Position(row, SizeWrapping.Inc(SizeWrapping.Inc(col, cols), cols)))
    else None
  }

  /** On a ring of at least three values, one or two steps never come back. */
  lemma StepsDistinct(x: nat, size: nat)
    requires size >= 3 && x < size
    ensures SizeWrapping.Inc(x, size) != x
    ensures SizeWrapping.Inc(SizeWrapping.Inc(x, size), size) != x
    ensures SizeWrapping.Inc(SizeWrapping.Inc(x, size), size) != SizeWrapping.Inc(x, size)
    ensures SizeWrapping.Dec(x, size) != x && SizeWrapping.Dec(x, size) != SizeWrapping.Inc(x, size)
  {
  }

  /**
   * On a grid at least three cells each way, the bullet of mod.rs's `fire`
   * appears inside the grid and outside the player's block for each of the
   * eight directions, and on the block's corner cell otherwise.
   */
  lemma FireCellOutsideBlock(pos: Position, d: Direction, dims: Dimensions)
    requires dims.rows >= 3 && dims.cols >= 3 && InRange(pos, dims)
    ensures InRange(FireCell(pos, d, dims), dims)
    ensures IsNamed(d) ==> FireCell(pos, d, dims) !in QuadCells(pos, dims)
    ensures !IsNamed(d) ==> FireCell(pos, d, dims) == pos
  {
    StepsDistinct(pos.row, dims.rows);
    StepsDistinct(pos.col, dims.cols);
    CardinalBits();
  }

  /** The same for firing.rs, whose `fire` gives no cell at all for an unnamed direction. */
  lemma FiringCellOutsideBlock(pos: Position, d: Direction, dims: Dimensions)
    requires dims.rows >= 3 && dims.cols >= 3 && InRange(pos, dims)
    ensures FiringCell(pos, d, dims).Some? <==> IsNamed(d)
    ensures FiringCell(pos, d, dims).Some? ==>
      InRange(FiringCell(pos, d, dims).value, dims) && FiringCell(pos, d, dims).value !in QuadCells(pos, dims)
  {
    StepsDistinct(pos.row, dims.rows);
    StepsDistinct(pos.col, dims.cols);
    CardinalBits();
  }

  /**
   * The two tables agree on six of the eight directions. On DOWN_RIGHT the
   * firing table starts one row higher, and on UP_RIGHT one column further
   * right, than the older table.
   */
  lemma TablesAgreeExceptRightDiagonals(pos: Position, d: Direction, dims: Dimensions)
    requires ValidDims(dims) && IsNamed(d)
    ensures d != DOWN_RIGHT && d != UP_RIGHT ==> FiringCell(pos, d, dims) == Some(FireCell(pos, d, dims))
    ensures d == DOWN_RIGHT ==> FiringCell(pos, d, dims).value
                                == FireCell(pos, d, dims).(row := SizeWrapping.Inc(pos.row, dims.rows))
    ensures d == UP_RIGHT ==> FiringCell(pos, d, dims).value
                              == FireCell(pos, d, dims).(col := SizeWrapping.Inc(SizeWrapping.Inc(pos.col, dims.cols), dims.cols))
  {
    CardinalBits();
  }
}
