/**
 * The entity records of the entities module as the per-kind state
 * machines (player.rs, bullet.rs, brat.rs, factory.rs) and the firing code
 * use them: timestamps named `update`, a five-valued life cycle, and the
 * `Action` an update asks the game context to perform.
 *
 * Timestamps are `u32` milliseconds and counters `u8` or `u16` in the
 * source; they are natural numbers here.
 */
module EntityTypes {
  import opened Directions
  import opened Positions
  import SizeWrapping

  datatype State = Alive | Exploding1 | Exploding2 | Exploding3 | Dead

  datatype Player = Player(update: nat, pos: Position, dir: Direction, stopDir: Direction, state: State, cycle: nat)

  datatype Bullet = Bullet(update: nat, pos: Position, dir: Direction, state: State)

  datatype Brat = Brat(update: nat, distance: nat, pos: Position, dir: Direction, state: State, cycle: nat)

  /** A rat as a factory creates it (the fields `update_factory` fills in). */
  datatype Rat = Rat(update: nat, distance: nat, pos: Position, dir: Direction, state: State, cycle: nat)

  datatype Factory = Factory(update: nat, pos: Position, state: State, cycle: nat)

  datatype Entity =
    | EPlayer(player: Player)
    | ERat(rat: Rat)
    | EBrat(brat: Brat)
    | EFactory(factory: Factory)
    | EBullet(bullet: Bullet)

  /** What an entity's update asks the game context to do with it. */
  datatype Action =
    | Nothing
    | Delete
    | Update(entity: Entity)
    | New(entity: Entity)
    | Attack(damage: nat)

  /** How far along the life cycle a state is: Alive 0, Exploding1 1, ..., Dead 4. */
  function Stage(s: State): nat {
    match s
    case Alive => 0
    case Exploding1 => 1
    case Exploding2 => 2
    case Exploding3 => 3
    case Dead => 4
  }

  predicate Exploding(s: State) {
    s.Exploding1? || s.Exploding2? || s.Exploding3?
  }

  /** The four cells of the 2×2 block whose top-left cell is `corner`, wrapping. */
  function QuadCells(corner: Position, dims: Dimensions): (cells: set<Position>)
    requires ValidDims(dims)
    ensures corner in cells && |cells| <= 4
  {
    var row1 := SizeWrapping.Inc(corner.row, dims.rows);
    var col1 := SizeWrapping.Inc(corner.col, dims.cols);
    {corner, Position(corner.row, col1), Position(row1, corner.col), Position(row1, col1)}
  }

  /** On a grid at least two cells each way the block has four distinct in-range cells. */
  lemma QuadCellsDistinct(corner: Position, dims: Dimensions)
    requires dims.rows >= 2 && dims.cols >= 2 && InRange(corner, dims)
    ensures |QuadCells(corner, dims)| == 4
    ensures forall c :: c in QuadCells(corner, dims) ==> InRange(c, dims)
  {
    var row1 := SizeWrapping.Inc(corner.row, dims.rows);
    var col1 := SizeWrapping.Inc(corner.col, dims.cols);
    var a, b := Position(corner.row, col1), Position(row1, corner.col);
    var c := Position(row1, col1);
    assert {corner, a, b, c} == {corner} + {a} + {b} + {c};
    assert |{corner} + {a} + {b}| == 3;
  }
}
