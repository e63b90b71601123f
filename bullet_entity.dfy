/**
 * Bullets (rats/src/entities/bullet.rs): a one-cell entity that flies one
 * cell per interval until it reaches a wall, and after a hit shows three
 * explosion frames before it is deleted.
 */
module BulletEntity {
  import opened Directions
  import opened Positions
  import opened Mazes
  import opened EntityTypes
  import opened Config
  import SizeWrapping

  /** `hit`: an alive bullet occupies exactly its own cell. */
  function Hit(b: Bullet, pos: Position): (r: bool)
    ensures r <==> b.state == Alive && b.pos == pos
  {
    b.state == Alive && b.pos == pos
  }

  /** `explode`: the bullet starts exploding; nothing else changes. */
  function Explode(b: Bullet): (q: Bullet)
    ensures q.state == Exploding1
    ensures q.(state := b.state) == b
  {
    b.(state := Exploding1)
  }

  /**
   * The cell a flying bullet moves to: one wrapping step along each of the
   * eight named directions; any other direction stays in place.
   */
  function Target(pos: Position, d: Direction, dims: Dimensions): (t: Position)
    requires ValidDims(dims)
    ensures IsNamed(d) ==> t == Advanced(pos, d, dims)
    ensures !IsNamed(d) ==> t == pos
  {
    var row, col := pos.row, pos.col;
    var rows, cols := dims.rows, dims.cols;
    var (r, c) :=
      if d == DOWN then (SizeWrapping.Inc(row, rows), col)
      else if d == DOWN_LEFT then (SizeWrapping.Inc(row, rows), SizeWrapping.Dec(col, cols))
      else if d == DOWN_RIGHT then (SizeWrapping.Inc(row, rows), SizeWrapping.Inc(col, cols))
      else if d == UP then (SizeWrapping.Dec(row, rows), col)
      else if d == UP_LEFT then (SizeWrapping.Dec(row, rows), SizeWrapping.Dec(col, cols))
      else if d == UP_RIGHT then (SizeWrapping.Dec(row, rows), SizeWrapping.Inc(col, cols))
      else if d == LEFT then (row, SizeWrapping.Dec(col, cols))
      else if d == RIGHT then (row, SizeWrapping.Inc(col, cols))
      else (row, col);
    Position(r, c)
  }

  /**
   * `update_bullet`: nothing happens before the bullet's next update time.
   * A flying bullet that would enter a wall is deleted; otherwise it moves
   * to its target, keeping its direction and state. Each explosion frame
   * lasts a full interval, and a dead bullet is deleted.
   */
  function UpdateBullet(b: Bullet, now: nat, walls: Walls): (a: Action)
    requires ValidDims(walls.dims)
    ensures a.Nothing? <==> now < b.update + BULLET_UPDATE_MS
    ensures a.Nothing? || a.Delete? || (a.Update? && a.entity.EBullet?)
    ensures !a.Nothing? && b.state == Alive ==>
      var t := Target(b.pos, b.dir, walls.dims);
      if walls.isWall(t.row, t.col) then a.Delete?
      else a == Update(EBullet(b.(update := now + BULLET_UPDATE_MS, pos := t)))
    ensures !a.Nothing? && b.state != Alive ==>
      && (a.Delete? <==> b.state == Dead)
      && (a.Update? ==> a.entity.bullet == b.(state := a.entity.bullet.state, update := now + BULLET_UPDATE_MS)
                        && Stage(a.entity.bullet.state) == Stage(b.state) + 1)
  {
    if now < b.update + BULLET_UPDATE_MS then Nothing
    else
      match b.state
      case Alive =>
        var t := Target(b.pos, b.dir, walls.dims);
        if walls.isWall(t.row, t.col) then Delete
        else Update(EBullet(b.(update := now + BULLET_UPDATE_MS, pos := t)))
      case Exploding1 => Update(EBullet(b.(update := now + BULLET_UPDATE_MS, state := Exploding2)))
      case Exploding2 => Update(EBullet(b.(update := now + BULLET_UPDATE_MS, state := Exploding3)))
      case Exploding3 => Update(EBullet(b.(update := now + BULLET_UPDATE_MS, state := Dead)))
      case Dead => Delete
  }

  /**
   * An exploding bullet, updated once per interval from the moment it is
   * due, shows its remaining explosion frames and is deleted on the fourth
   * update.
   */
  lemma ExplosionLasts(b: Bullet, now: nat, walls: Walls)
    requires ValidDims(walls.dims) && b.state == Exploding1 && now >= b.update + BULLET_UPDATE_MS
    ensures UpdateBullet(b, now, walls) == Update(EBullet(b.(state := Exploding2, update := now + BULLET_UPDATE_MS)))
    ensures UpdateBullet(b.(state := Exploding2, update := now + BULLET_UPDATE_MS), now + 2 * BULLET_UPDATE_MS, walls)
         == Update(EBullet(b.(state := Exploding3, update := now + 3 * BULLET_UPDATE_MS)))
    ensures UpdateBullet(b.(state := Exploding3, update := now + 3 * BULLET_UPDATE_MS), now + 4 * BULLET_UPDATE_MS, walls)
         == Update(EBullet(b.(state := Dead, update := now + 5 * BULLET_UPDATE_MS)))
    ensures UpdateBullet(b.(state := Dead, update := now + 5 * BULLET_UPDATE_MS), now + 6 * BULLET_UPDATE_MS, walls).Delete?
  {
  }

  /** A bullet leaving the last column travelling right reappears in column 0. */
  lemma WrapsAround(b: Bullet, now: nat, walls: Walls)
    requires ValidDims(walls.dims) && b.state == Alive && b.dir == RIGHT
    requires b.pos.col == walls.dims.cols - 1 && now >= b.update + BULLET_UPDATE_MS
    requires !walls.isWall(b.pos.row, 0)
    ensures UpdateBullet(b, now, walls) == Update(EBullet(b.(update := now + BULLET_UPDATE_MS, pos := Position(b.pos.row, 0))))
  {
  }
}
