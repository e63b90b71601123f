/**
 * Brats (rats/src/entities/brat.rs): one-cell enemies that chase the player,
 * walk a random distance in a random direction when they cannot, attack a
 * player whose block they touch, and explode in half-interval frames.
 */
module BratEntity {
  import opened Directions
  import opened Positions
  import opened Mazes
  import opened EntityTypes
  import opened Config
  import opened Optional
  import SizeWrapping

  /** `advance`: the brat moved one step along `d`; nothing else changes. */
  function Advance(b: Brat, d: Direction, dims: Dimensions): (q: Brat)
    requires ValidDims(dims)
    ensures q.(pos := b.pos) == b
    ensures q.pos == Advanced(b.pos, d, dims)
  {
    b.(pos := Advanced(b.pos, d, dims))
  }

  /** `can_advance`: the cell one step along `d` is not a wall. */
  function CanAdvance(b: Brat, d: Direction, walls: Walls): (r: bool)
    requires ValidDims(walls.dims)
    ensures r <==> !walls.isWall(Advance(b, d, walls.dims).pos.row, Advance(b, d, walls.dims).pos.col)
  {
    var moved := Advance(b, d, walls.dims);
    !walls.isWall(moved.pos.row, moved.pos.col)
  }

  /** `hit`: an alive brat occupies exactly its own cell. */
  function Hit(b: Brat, pos: Position): (r: bool)
    ensures r <==> b.state == Alive && b.pos == pos
  {
    b.state == Alive && b.pos == pos
  }

  /** `explode`: the brat starts exploding; nothing else changes. */
  function Explode(b: Brat): (q: Brat)
    ensures q.state == Exploding1
    ensures q.(state := b.state) == b
  {
    b.(state := Exploding1)
  }

  /**
   * `hit_player_1`: `pos` is one of the four cells of the player's block,
   * whatever the player's state.
   */
  function HitPlayer1(pos: Position, player: Player, dims: Dimensions): (r: bool)
    requires ValidDims(dims)
    ensures r <==> pos in QuadCells(player.pos, dims)
  {
    if pos == player.pos then true
    else
      var row1 := SizeWrapping.Inc(player.pos.row, dims.rows);
      var col1 := SizeWrapping.Inc(player.pos.col, dims.cols);
      pos == Position(player.pos.row, col1) || pos == Position(row1, player.pos.col) || pos == Position(row1, col1)
  }

  /** The direction an alive brat heads in: towards the player when `chase` says so. */
  function Heading(b: Brat, chase: Option<Direction>): (d: Direction)
    ensures chase.Some? ==> d == chase.value
    ensures chase.None? ==> d == b.dir
  {
    if chase.Some? then chase.value else b.dir
  }

  /**
   * `update_brat`. `chase` stands for the result of `player_dir`, and
   * `randomDir`/`randomDistance` for the values `random_direction()` and
   * `random(5, 15)` would draw. Nothing happens before the brat's next
   * update time. An alive brat touching the player's block attacks it and
   * stays as it is. Otherwise it takes its heading, and either steps one
   * cell, using up one unit of its distance, or, when its distance is used
   * up or the step is blocked, stays put and picks a new direction and
   * distance; its cycle advances in both cases. Explosion frames last half
   * an interval and a dead brat is deleted.
   */
  method UpdateBrat(brat: Brat, player: Player, damage: nat, now: nat, walls: Walls,
                    chase: Option<Direction>, randomDir: Direction, randomDistance: nat)
    returns (a: Action)
    requires ValidDims(walls.dims)
    ensures a.Nothing? <==> now < brat.update + BRAT_UPDATE_MS
    ensures a.Attack? <==> !a.Nothing? && brat.state == Alive && HitPlayer1(brat.pos, player, walls.dims)
    ensures a.Attack? ==> a.damage == damage
    ensures a.Delete? <==> !a.Nothing? && brat.state == Dead
    ensures !a.Nothing? && !a.Attack? && !a.Delete? ==> a.Update? && a.entity.EBrat?
    ensures a.Update? && brat.state == Alive ==>
      var d := Heading(brat, chase);
      var b := a.entity.brat;
      && b.update == now + BRAT_UPDATE_MS
      && b.cycle == (brat.cycle + 1) % 4
      && b.state == Alive
      && (if brat.distance != 0 && CanAdvance(brat, d, walls)
          then b.pos == Advanced(brat.pos, d, walls.dims) && b.dir == d && b.distance == brat.distance - 1
          else b.pos == brat.pos && b.dir == randomDir && b.distance == randomDistance)
    ensures a.Update? && brat.state != Alive ==>
      && Stage(a.entity.brat.state) == Stage(brat.state) + 1
      && a.entity.brat == brat.(state := a.entity.brat.state, update := now + BRAT_UPDATE_MS / 2)
    ensures a.Update? && InRange(brat.pos, walls.dims) ==>
      && InRange(a.entity.brat.pos, walls.dims)
      && (a.entity.brat.pos == brat.pos || !walls.isWall(a.entity.brat.pos.row, a.entity.brat.pos.col))
  {
    if now < brat.update + BRAT_UPDATE_MS {
      return Nothing;
    }
    var b := brat;
    match b.state {
      case Alive =>
        if HitPlayer1(b.pos, player, walls.dims) {
          return Attack(damage);
        }
        if chase.Some? {
          b := b.(dir := chase.value);
        }
        ghost var b0 := b;
        if b.distance == 0 || !CanAdvance(b, b.dir, walls) {
          b := b.(dir := randomDir);
          b := b.(distance := randomDistance);
        } else {
          b := Advance(b, b.dir, walls.dims);
          b := b.(distance := b.distance - 1);
        }
        if InRange(brat.pos, walls.dims) {
          UpdateAvoidsWalls(b0, b, walls, b.dir);
        }
        a := Update(EBrat(b.(update := now + BRAT_UPDATE_MS, cycle := (b.cycle + 1) % 4)));
      case Exploding1 =>
        a := Update(EBrat(b.(update := now + BRAT_UPDATE_MS / 2, state := Exploding2)));
      case Exploding2 =>
        a := Update(EBrat(b.(update := now + BRAT_UPDATE_MS / 2, state := Exploding3)));
      case Exploding3 =>
        a := Update(EBrat(b.(update := now + BRAT_UPDATE_MS / 2, state := Dead)));
      case Dead =>
        a := Delete;
    }
  }

  /**
   * One movement step of `update_brat` never leaves the grid or enters a
   * wall: a brat `b` that either stayed where `brat` stood or took an
   * allowed step from there is in range and, if it moved, not on a wall.
   */
  lemma UpdateAvoidsWalls(brat: Brat, b: Brat, walls: Walls, d: Direction)
    requires ValidDims(walls.dims) && InRange(brat.pos, walls.dims)
    requires b.pos == brat.pos || (CanAdvance(brat, d, walls) && b.pos == Advanced(brat.pos, d, walls.dims))
    ensures InRange(b.pos, walls.dims)
    ensures b.pos == brat.pos || !walls.isWall(b.pos.row, b.pos.col)
  {
    Positions.AdvanceAxes(brat.pos, d, walls.dims);
  }
}
