/**
 * The player (rats/src/entities/player.rs): a 2×2 block that slides along
 * walls, is hit anywhere on its block while alive, and after exploding
 * runs through three explosion frames, lies dead, and comes back alive.
 */
module PlayerEntity {
  import opened Directions
  import opened Positions
  import opened Mazes
  import opened EntityTypes
  import opened Config
  import SizeWrapping

  /** No cell of the block at `corner` is a wall. */
  predicate QuadFree(walls: Walls, corner: Position)
    requires ValidDims(walls.dims)
  {
    forall c :: c in QuadCells(corner, walls.dims) ==> !walls.isWall(c.row, c.col)
  }

  /** `advance`: the player's position moved along `dir`, the rest unchanged. */
  method Advance(p: Player, d: Direction, dims: Dimensions) returns (q: Player)
    requires ValidDims(dims)
    ensures q == p.(pos := Advanced(p.pos, d, dims))
  {
    var pos := Positions.Advance(p.pos, d, dims);
    q := p.(pos := pos);
  }

  /**
   * `can_advance`: the block is moved along `dir`, and for each bit of
   * `dir` the edge of the moved block facing that way must be free of
   * walls (the top row for UP, the bottom row for DOWN, the left column for
   * LEFT, the right column for RIGHT).
   */
  function CanAdvance(p: Player, d: Direction, walls: Walls): (r: bool)
    requires ValidDims(walls.dims)
    ensures d & (UP | DOWN | LEFT | RIGHT) == 0 ==> r
    ensures !r ==> d & (UP | DOWN | LEFT | RIGHT) != 0
  {
    var moved := Advanced(p.pos, d, walls.dims);
    var row1, col1 := moved.row, moved.col;
    var row2 := SizeWrapping.Inc(row1, walls.dims.rows);
    var col2 := SizeWrapping.Inc(col1, walls.dims.cols);
    !((d & UP != 0 && (walls.isWall(row1, col1) || walls.isWall(row1, col2)))
      || (d & DOWN != 0 && (walls.isWall(row2, col1) || walls.isWall(row2, col2)))
      || (d & LEFT != 0 && (walls.isWall(row1, col1) || walls.isWall(row2, col1)))
      || (d & RIGHT != 0 && (walls.isWall(row1, col2) || walls.isWall(row2, col2))))
  }

  /** Standing still is always allowed. */
  lemma CanAdvanceNone(p: Player, walls: Walls)
    requires ValidDims(walls.dims)
    ensures CanAdvance(p, NONE, walls)
  {
  }

  /**
   * From a wall-free block, a move is allowed exactly when the block it
   * lands on is wall-free: the edges `can_advance` tests are the cells the
   * move newly covers, and the other cells were covered before.
   */
  lemma CanAdvanceIffDestinationFree(p: Player, d: Direction, walls: Walls)
    requires ValidDims(walls.dims) && InRange(p.pos, walls.dims) && QuadFree(walls, p.pos)
    ensures CanAdvance(p, d, walls) <==> QuadFree(walls, Advanced(p.pos, d, walls.dims))
  {
    var dims := walls.dims;
    var r, c := p.pos.row, p.pos.col;
    var r1, c1 := SizeWrapping.Inc(r, dims.rows), SizeWrapping.Inc(c, dims.cols);
    var q := Advanced(p.pos, d, dims);
    var q1, q2 := SizeWrapping.Inc(q.row, dims.rows), SizeWrapping.Inc(q.col, dims.cols);
    SizeWrapping.IncDecInverse(r, dims.rows);
    SizeWrapping.IncDecInverse(c, dims.cols);
    Positions.NeighboursAreWrapping(p.pos, dims);
    Positions.AdvanceAxes(p.pos, d, dims);
    assert !walls.isWall(r, c) && !walls.isWall(r, c1) && !walls.isWall(r1, c) && !walls.isWall(r1, c1) by {
      assert Position(r, c1) in QuadCells(p.pos, dims);
      assert Position(r1, c) in QuadCells(p.pos, dims);
      assert Position(r1, c1) in QuadCells(p.pos, dims);
    }
    var up, down := d & UP != 0, d & DOWN != 0;
    var left, right := d & LEFT != 0, d & RIGHT != 0;
    // The moved block's rows and columns, case by case on the bits.
    assert up && !down ==> q.row == SizeWrapping.Dec(r, dims.rows) && q1 == r;
    assert down && !up ==> q.row == r1;
    assert up == down ==> q.row == r && q1 == r1;
    assert left && !right ==> q.col == SizeWrapping.Dec(c, dims.cols) && q2 == c;
    assert right && !left ==> q.col == c1;
    assert left == right ==> q.col == c && q2 == c1;
    assert QuadCells(q, dims) == {q, Position(q.row, q2), Position(q1, q.col), Position(q1, q2)};
  }

  /** `effective_dir`: the held direction with cancelling pairs cleared, one test at a time. */
  method EffectiveDir(p: Player) returns (d: Direction)
    ensures d == Directions.EffectiveDir(p.dir)
    ensures d & !p.dir == 0
  {
    d := p.dir;
    if d & UP != 0 && d & DOWN != 0 {
      d := d & !(UP | DOWN);
    }
    if d & LEFT != 0 && d & RIGHT != 0 {
      d := d & !(LEFT | RIGHT);
    }
  }

  /** `hit`: an alive player is hit on any of the four cells of its block. */
  function Hit(p: Player, pos: Position, dims: Dimensions): (r: bool)
    requires ValidDims(dims)
    ensures r <==> p.state == Alive && pos in QuadCells(p.pos, dims)
  {
    if p.state != Alive then false
    else if pos == p.pos then true
    else
      var row1 := SizeWrapping.Inc(p.pos.row, dims.rows);
      var col1 := SizeWrapping.Inc(p.pos.col, dims.cols);
      pos == Position(p.pos.row, col1) || pos == Position(row1, p.pos.col) || pos == Position(row1, col1)
  }

  /** `explode`: the player starts exploding; nothing else changes. */
  function Explode(p: Player): (q: Player)
    ensures q.state == Exploding1
    ensures q.(state := p.state) == p
  {
    p.(state := Exploding1)
  }

  /** One component of a blocked move: taken if the bit is held and the step is allowed. */
  function TryStep(p: Player, bit: Direction, walls: Walls): Player
    requires ValidDims(walls.dims)
  {
    if p.dir & bit != 0 && CanAdvance(p, bit, walls) then p.(pos := Advanced(p.pos, bit, walls.dims)) else p
  }

  /**
   * Where an alive player ends up after one movement tick: the whole
   * direction if it can advance that way; otherwise each held bit in the
   * order UP, DOWN, LEFT, RIGHT, each tried from wherever the previous
   * ones left it.
   */
  function Slide(p: Player, walls: Walls): Position
    requires ValidDims(walls.dims)
  {
    if CanAdvance(p, p.dir, walls) then Advanced(p.pos, p.dir, walls.dims)
    else TryStep(TryStep(TryStep(TryStep(p, UP, walls), DOWN, walls), LEFT, walls), RIGHT, walls).pos
  }

  /** One guarded step keeps the player on a free, in-range block. */
  lemma GuardedStepStaysFree(p: Player, d: Direction, walls: Walls)
    requires ValidDims(walls.dims) && InRange(p.pos, walls.dims) && QuadFree(walls, p.pos)
    requires CanAdvance(p, d, walls)
    ensures InRange(Advanced(p.pos, d, walls.dims), walls.dims)
    ensures QuadFree(walls, Advanced(p.pos, d, walls.dims))
  {
    CanAdvanceIffDestinationFree(p, d, walls);
    Positions.AdvanceAxes(p.pos, d, walls.dims);
  }

  lemma TryStepStaysFree(p: Player, bit: Direction, walls: Walls)
    requires ValidDims(walls.dims) && InRange(p.pos, walls.dims) && QuadFree(walls, p.pos)
    ensures TryStep(p, bit, walls).dir == p.dir
    ensures InRange(TryStep(p, bit, walls).pos, walls.dims)
    ensures QuadFree(walls, TryStep(p, bit, walls).pos)
  {
    if p.dir & bit != 0 && CanAdvance(p, bit, walls) {
      GuardedStepStaysFree(p, bit, walls);
    }
  }

  /** The player never slides into a wall: a free block stays free. */
  lemma SlideStaysFree(p: Player, walls: Walls)
    requires ValidDims(walls.dims) && InRange(p.pos, walls.dims) && QuadFree(walls, p.pos)
    ensures InRange(Slide(p, walls), walls.dims)
    ensures QuadFree(walls, Slide(p, walls))
  {
    if CanAdvance(p, p.dir, walls) {
      GuardedStepStaysFree(p, p.dir, walls);
    } else {
      var p1 := TryStep(p, UP, walls);
      TryStepStaysFree(p, UP, walls);
      var p2 := TryStep(p1, DOWN, walls);
      TryStepStaysFree(p1, DOWN, walls);
      var p3 := TryStep(p2, LEFT, walls);
      TryStepStaysFree(p2, LEFT, walls);
      TryStepStaysFree(p3, RIGHT, walls);
    }
  }

  /** One `if dir & bit != 0 && can_advance(bit)` step of the blocked case. */
  method StepIfHeld(p: Player, bit: Direction, walls: Walls) returns (q: Player)
    requires ValidDims(walls.dims)
    ensures q == TryStep(p, bit, walls)
  {
    q := p;
    if p.dir & bit != 0 && CanAdvance(p, bit, walls) {
      q := Advance(p, bit, walls.dims);
    }
  }

  /** The movement part of an alive player's update, step by step. */
  method SlideAlong(player: Player, walls: Walls) returns (p: Player)
    requires ValidDims(walls.dims)
    ensures p == player.(pos := Slide(player, walls))
  {
    p := player;
    if CanAdvance(p, p.dir, walls) {
      p := Advance(p, p.dir, walls.dims);
    } else {
      p := StepIfHeld(p, UP, walls);
      p := StepIfHeld(p, DOWN, walls);
      p := StepIfHeld(p, LEFT, walls);
      p := StepIfHeld(p, RIGHT, walls);
    }
  }

  /** Delay before the next update after leaving state `s` (not Alive). */
  function ExplosionDelay(s: State): nat
    requires s != Alive
  {
    if s == Dead then PLAYER_UPDATE_MS * 2 else PLAYER_UPDATE_MS / 2
  }

  /**
   * `update_player`: nothing happens before the player's next update time.
   * An alive player slides and advances its animation cycle; an exploding
   * player moves one explosion frame on and a dead player comes back alive,
   * both after half an interval (twice an interval from Dead). The player is
   * never deleted, and it never slides into a wall.
   */
  method UpdatePlayer(player: Player, now: nat, walls: Walls) returns (a: Action)
    requires ValidDims(walls.dims)
    ensures a.Nothing? <==> now < player.update + PLAYER_UPDATE_MS
    ensures !a.Nothing? ==> a.Update? && a.entity.EPlayer?
    ensures !a.Nothing? && player.state == Alive ==>
      a.entity.player == player.(pos := Slide(player, walls), update := now + PLAYER_UPDATE_MS,
                                 cycle := (player.cycle + 1) % 4)
    ensures !a.Nothing? && player.state == Alive && InRange(player.pos, walls.dims)
              && QuadFree(walls, player.pos) ==>
      InRange(a.entity.player.pos, walls.dims) && QuadFree(walls, a.entity.player.pos)
    ensures !a.Nothing? && player.state != Alive ==>
      && Stage(a.entity.player.state) == (Stage(player.state) + 1) % 5
      && a.entity.player == player.(state := a.entity.player.state,
                                    update := now + ExplosionDelay(player.state))
  {
    if now < player.update + PLAYER_UPDATE_MS {
      return Nothing;
    }
    var p := player;
    var dims := walls.dims;
    match p.state {
      case Alive =>
        p := SlideAlong(p, walls);
        a := Update(EPlayer(p.(update := now + PLAYER_UPDATE_MS, cycle := (p.cycle + 1) % 4)));
        if InRange(player.pos, dims) && QuadFree(walls, player.pos) {
          SlideStaysFree(player, walls);
        }
      case Exploding1 =>
        a := Update(EPlayer(p.(update := now + PLAYER_UPDATE_MS / 2, state := Exploding2)));
      case Exploding2 =>
        a := Update(EPlayer(p.(update := now + PLAYER_UPDATE_MS / 2, state := Exploding3)));
      case Exploding3 =>
        a := Update(EPlayer(p.(update := now + PLAYER_UPDATE_MS / 2, state := Dead)));
      case Dead =>
        a := Update(EPlayer(p.(update := now + PLAYER_UPDATE_MS * 2, state := Alive)));
    }
  }
}
