/**
 * The maze (rats/src/maze.rs). The wall layout and the generator that
 * carves it are not part of this model: every operation that asks the maze
 * a question receives a `Walls` value whose predicates stand for the
 * maze's `is_wall`, `is_wall_quad` and `empty1` queries.
 */
module Mazes {
  import opened Positions
  import Arithmetic

  /** What the game logic may ask of a maze: its size and three cell queries. */
  datatype Walls = Walls(
    dims: Dimensions,
    isWall: (nat, nat) -> bool,
    isWallQuad: (nat, nat) -> bool,
    empty1: (nat, nat) -> bool)

  /** Maze cells are 5 characters high and 10 wide, plus one shared wall line. */
  const MAZE_CELL_HEIGHT: nat := 5
  const MAZE_CELL_WIDTH: nat := 10

  const SPACE: nat := 0x20

  /** The record `Maze::new` builds: character extent and a cell buffer. */
  datatype MazeCells = MazeCells(charWidth: nat, charHeight: nat, buffer: seq<nat>)

  datatype Built = Built(maze: MazeCells) | InvalidDimensions

  /**
   * `Maze::new(width, height)`: a maze of `width` by `height` cells. Fewer
   * than two cells either way is refused (the source panics). The buffer
   * holds one blank byte per cell, not per character.
   */
  function NewMaze(width: nat, height: nat): (r: Built)
    ensures r.InvalidDimensions? <==> width < 2 || height < 2
    ensures r.Built? ==>
      && r.maze.charWidth == (MAZE_CELL_WIDTH + 1) * width
      && r.maze.charHeight == (MAZE_CELL_HEIGHT + 1) * height
      && |r.maze.buffer| == height * width
      && forall i :: 0 <= i < |r.maze.buffer| ==> r.maze.buffer[i] == SPACE
  {
    if width < 2 || height < 2 then InvalidDimensions
    else Built(MazeCells(11 * width, 6 * height, seq(height * width, _ => SPACE)))
  }

  /** Every maze that can be built is at least 22 characters wide and 12 high. */
  lemma BuiltMazeIsLarge(width: nat, height: nat)
    requires NewMaze(width, height).Built?
    ensures NewMaze(width, height).maze.charWidth >= 22
    ensures NewMaze(width, height).maze.charHeight >= 12
    ensures |NewMaze(width, height).maze.buffer| >= 4
  {
    Arithmetic.MulNonneg(width - 2, height - 2);
  }
}
