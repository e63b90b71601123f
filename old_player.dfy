/**
 * The first player object (rats/src/player.rs): a cell position together
 * with the maze size it wraps around, moved in place. Moving right and down
 * wraps with `%`, moving left and up with an explicit test for 0.
 */
module OldPlayer {
  import opened Directions
  import opened Positions
  import Arithmetic

  class Player {
    var row: nat
    var col: nat
    var mazeRows: nat
    var mazeCols: nat

    function Dims(): Dimensions
      reads this
    {
      Dimensions(mazeRows, mazeCols)
    }

    function Pos(): Position
      reads this
    {
      Position(row, col)
    }

    /** The player stands inside a non-empty maze. */
    predicate Valid()
      reads this
    {
      ValidDims(Dims()) && InRange(Pos(), Dims())
    }

    /**
     * `new`: starting from the top-left cell, move down half the rows and
     * right half the columns, which lands on the middle cell. The maze it
     * is given is never empty (`Maze::new` refuses fewer than two cells).
     */
    constructor (rows: nat, cols: nat)
      requires rows >= 1 && cols >= 1
      ensures mazeRows == rows && mazeCols == cols
      ensures row == rows / 2 && col == cols / 2
      ensures Valid()
    {
      row, col := 0, 0;
      mazeRows, mazeCols := rows, cols;
      new;
      MoveDown(rows / 2);
      MoveRight(cols / 2);
      Arithmetic.ModSmall(rows / 2, rows);
      Arithmetic.ModSmall(cols / 2, cols);
    }

    /** `move_left`: as many wrapping steps left as asked; the row stays. */
    method MoveLeft(steps: nat)
      requires Valid()
      modifies this
      ensures Valid() && mazeRows == old(mazeRows) && mazeCols == old(mazeCols)
      ensures Pos() == LeftBy(old(Pos()), steps, Dims())
      ensures row == old(row) && col == (old(col) - steps) % mazeCols
    {
      ghost var start := Pos();
      var s := steps;
      while s > 0
        invariant 0 <= s <= steps
        invariant mazeRows == old(mazeRows) && mazeCols == old(mazeCols)
        invariant Pos() == LeftBy(start, steps - s, Dims())
      {
        col := if col == 0 then mazeCols - 1 else col - 1;
        s := s - 1;
      }
      HorizontalMoves(start, steps, Dims());
    }

    /** `move_right`: the column advances by one modulo the width per step. */
    method MoveRight(steps: nat)
      requires Valid()
      modifies this
      ensures Valid() && mazeRows == old(mazeRows) && mazeCols == old(mazeCols)
      ensures Pos() == RightBy(old(Pos()), steps, Dims())
      ensures row == old(row) && col == (old(col) + steps) % mazeCols
    {
      ghost var start := Pos();
      var s := steps;
      while s > 0
        invariant 0 <= s <= steps
        invariant mazeRows == old(mazeRows) && mazeCols == old(mazeCols)
        invariant Pos() == RightBy(start, steps - s, Dims())
      {
        col := (col + 1) % mazeCols;
        s := s - 1;
      }
      HorizontalMoves(start, steps, Dims());
    }

    /** `move_up`: as many wrapping steps up as asked; the column stays. */
    method MoveUp(steps: nat)
      requires Valid()
      modifies this
      ensures Valid() && mazeRows == old(mazeRows) && mazeCols == old(mazeCols)
      ensures Pos() == UpBy(old(Pos()), steps, Dims())
      ensures col == old(col) && row == (old(row) - steps) % mazeRows
    {
      ghost var start := Pos();
      var s := steps;
      while s > 0
        invariant 0 <= s <= steps
        invariant mazeRows == old(mazeRows) && mazeCols == old(mazeCols)
        invariant Pos() == UpBy(start, steps - s, Dims())
      {
        row := if row == 0 then mazeRows - 1 else row - 1;
        s := s - 1;
      }
      VerticalMoves(start, steps, Dims());
    }

    /** `move_down`: the row advances by one modulo the height per step. */
    method MoveDown(steps: nat)
      requires Valid()
      modifies this
      ensures Valid() && mazeRows == old(mazeRows) && mazeCols == old(mazeCols)
      ensures Pos() == DownBy(old(Pos()), steps, Dims())
      ensures col == old(col) && row == (old(row) + steps) % mazeRows
    {
      ghost var start := Pos();
      var s := steps;
      while s > 0
        invariant 0 <= s <= steps
        invariant mazeRows == old(mazeRows) && mazeCols == old(mazeCols)
        invariant Pos() == DownBy(start, steps - s, Dims())
      {
        row := (row + 1) % mazeRows;
        s := s - 1;
      }
      VerticalMoves(start, steps, Dims());
    }

    /**
     * `advance`: one step for each set bit, in the order UP, DOWN, LEFT,
     * RIGHT; the same cell the newer `Position::advance` reaches.
     */
    method Advance(direction: Direction)
      requires Valid()
      modifies this
      ensures Valid() && mazeRows == old(mazeRows) && mazeCols == old(mazeCols)
      ensures Pos() == Advanced(old(Pos()), direction, Dims())
    {
      if direction & UP != 0 {
        MoveUp(1);
      }
      if direction & DOWN != 0 {
        MoveDown(1);
      }
      if direction & LEFT != 0 {
        MoveLeft(1);
      }
      if direction & RIGHT != 0 {
        MoveRight(1);
      }
    }
  }
}
