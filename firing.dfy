/**
 * Firing in the millisecond-timed game context
 * (rats/src/game_context/firing.rs): a shot is allowed once the player is
 * alive and the firing delay has passed; it either explodes the first
 * entity standing on the spawn cell or appends a new bullet there. The
 * clock readings are natural-number parameters.
 */
module Firing {
  import opened Directions
  import opened Positions
  import opened Mazes
  import opened EntityTypes
  import opened Optional
  import Spawns
  import PlayerEntity
  import BulletEntity
  import BratEntity
  import FactoryEntity

  /**
   * `hit` of the entity kinds. A rat (whose own file is not part of this
   * model) is taken to occupy its single cell while alive.
   */
  function EntityHit(e: Entity, pos: Position, dims: Dimensions): (r: bool)
    requires ValidDims(dims)
    ensures e.EPlayer? ==> (r <==> e.player.state == Alive && pos in QuadCells(e.player.pos, dims))
    ensures e.EFactory? ==> (r <==> e.factory.state == Alive && pos in QuadCells(e.factory.pos, dims))
    ensures e.ERat? ==> (r <==> e.rat.state == Alive && e.rat.pos == pos)
    ensures e.EBrat? ==> (r <==> e.brat.state == Alive && e.brat.pos == pos)
    ensures e.EBullet? ==> (r <==> e.bullet.state == Alive && e.bullet.pos == pos)
  {
    match e
    case EPlayer(p) => PlayerEntity.Hit(p, pos, dims)
    case ERat(r) => r.state == Alive && r.pos == pos
    case EBrat(b) => BratEntity.Hit(b, pos)
    case EFactory(f) => FactoryEntity.Hit(f, pos, dims)
    case EBullet(b) => BulletEntity.Hit(b, pos)
  }

  /** `explode` of the entity kinds: the entity starts exploding and nothing else about it changes. */
  function ExplodeEntity(e: Entity): (r: Entity)
    ensures r.EPlayer? == e.EPlayer? && r.ERat? == e.ERat? && r.EBrat? == e.EBrat?
    ensures r.EFactory? == e.EFactory? && r.EBullet? == e.EBullet?
    ensures r.EPlayer? ==> r.player == e.player.(state := Exploding1)
    ensures r.ERat? ==> r.rat == e.rat.(state := Exploding1)
    ensures r.EBrat? ==> r.brat == e.brat.(state := Exploding1)
    ensures r.EFactory? ==> r.factory == e.factory.(state := Exploding1)
    ensures r.EBullet? ==> r.bullet == e.bullet.(state := Exploding1)
  {
    match e
    case EPlayer(p) => EPlayer(PlayerEntity.Explode(p))
    case ERat(r) => ERat(r.(state := Exploding1))
    case EBrat(b) => EBrat(BratEntity.Explode(b))
    case EFactory(f) => EFactory(FactoryEntity.Explode(f))
    case EBullet(b) => EBullet(BulletEntity.Explode(b))
  }

  /** The first index at or after `from` whose entity is hit at `pos`. */
  function FirstHit(es: seq<Entity>, pos: Position, dims: Dimensions, from: nat): (r: Option<nat>)
    requires ValidDims(dims)
    ensures r.Some? ==> from <= r.value < |es| && EntityHit(es[r.value], pos, dims)
    ensures r.Some? ==> forall k :: from <= k < r.value ==> !EntityHit(es[k], pos, dims)
    ensures r.None? ==> forall k :: from <= k < |es| ==> !EntityHit(es[k], pos, dims)
    decreases |es| - from
  {
    if from >= |es| then None
    else if EntityHit(es[from], pos, dims) then Some(from)
    else FirstHit(es, pos, dims, from + 1)
  }

  /** Whether a shot goes off, and from which cell in which direction. */
  datatype Shot = NoShot | Shot(cell: Position, dir: Direction)

  /**
   * The checks of `fire` before anything changes: the player must be
   * alive and the next fire time reached, the stripped firing direction
   * must be one of the eight, and the spawn cell must not be a wall.
   */
  function Aim(player: Player, firingDir: Direction, now: nat, nextFireTime: nat, maze: Walls): (s: Shot)
    requires ValidDims(maze.dims)
    ensures s.Shot? <==> player.state == Alive && nextFireTime <= now && IsNamed(EffectiveDir(firingDir))
                         && var c := Spawns.FiringCell(player.pos, EffectiveDir(firingDir), maze.dims);
                            c.Some? && !maze.isWall(c.value.row, c.value.col)
    ensures s.Shot? ==> s.dir == EffectiveDir(firingDir)
                        && Some(s.cell) == Spawns.FiringCell(player.pos, s.dir, maze.dims)
  {
    if player.state != Alive || nextFireTime > now then NoShot
    else
      var dir := EffectiveDir(firingDir);
      match Spawns.FiringCell(player.pos, dir, maze.dims)
      case None => NoShot
      case Some(c) => if maze.isWall(c.row, c.col) then NoShot else Shot(c, dir)
  }

  /**
   * The list after a shot from `cell`: the first entity after the player
   * that is hit explodes, or, if none is, one alive bullet is appended.
   * At most one entity changes, and the player at index 0 never does.
   */
  function AfterShot(es: seq<Entity>, cell: Position, dir: Direction, elapsed: nat, dims: Dimensions): (r: seq<Entity>)
    requires ValidDims(dims)
    ensures (exists j :: 1 <= j < |es| && EntityHit(es[j], cell, dims)) <==> |r| == |es|
    ensures |r| != |es| ==> r == es + [EBullet(Bullet(elapsed, cell, dir, Alive))]
    ensures |r| == |es| ==> forall k :: 0 <= k < |es| && r[k] != es[k] ==>
      && 1 <= k && EntityHit(es[k], cell, dims) && r[k] == ExplodeEntity(es[k])
      && forall m :: 1 <= m < k ==> !EntityHit(es[m], cell, dims)
    ensures |r| == |es| ==> exists j ::
      && 1 <= j < |es| && EntityHit(es[j], cell, dims)
      && (forall m :: 1 <= m < j ==> !EntityHit(es[m], cell, dims))
      && r == es[j := ExplodeEntity(es[j])]
  {
    match FirstHit(es, cell, dims, 1)
    case Some(j) => es[j := ExplodeEntity(es[j])]
    case None => es + [EBullet(Bullet(elapsed, cell, dir, Alive))]
  }

  /** The context's firing state and its entity list, of which the first is the player. */
  class FiringContext {
    var nextFireTime: nat
    var bulletFireStart: nat
    /** The delay between shots (`bullet_firing_time`). */
    const bulletFiringTime: nat
    var firingDir: Direction
    var entities: seq<Entity>
    const maze: Walls

    constructor (firingTime: nat, current: Walls, es: seq<Entity>)
      ensures bulletFiringTime == firingTime && maze == current && entities == es
      ensures nextFireTime == 0 && bulletFireStart == 0 && firingDir == NONE
    {
      nextFireTime, bulletFireStart := 0, 0;
      bulletFiringTime := firingTime;
      firingDir := NONE;
      entities := es;
      maze := current;
    }

    /** `get_player`: where the source panics this model requires the player. */
    predicate HasPlayer()
      reads this
    {
      |entities| >= 1 && entities[0].EPlayer?
    }

    /** `effective_firing_dir`: the held firing bits with cancelling pairs cleared. */
    method EffectiveFiringDir() returns (dir: Direction)
      ensures dir == EffectiveDir(firingDir)
    {
      dir := firingDir;
      if dir & UP != 0 && dir & DOWN != 0 {
        dir := dir & !(UP | DOWN);
      }
      if dir & LEFT != 0 && dir & RIGHT != 0 {
        dir := dir & !(LEFT | RIGHT);
      }
    }

    /** The scan of `fire` over the entities after the player. */
    method FindTarget(pos: Position) returns (j: Option<nat>)
      requires ValidDims(maze.dims)
      ensures j == FirstHit(entities, pos, maze.dims, 1)
    {
      var i := 1;
      while i < |entities|
        invariant 1 <= i
        invariant FirstHit(entities, pos, maze.dims, 1) == FirstHit(entities, pos, maze.dims, i)
      {
        if EntityHit(entities[i], pos, maze.dims) {
          return Some(i);
        }
        i := i + 1;
      }
      return None;
    }

    /**
     * `fire` at clock reading `now`, with `elapsed` the game time a new
     * bullet is stamped with. Without a shot nothing changes. With one,
     * the next fire time is set first, then a target explodes or a bullet
     * is appended.
     */
    method Fire(now: nat, elapsed: nat)
      requires HasPlayer() && ValidDims(maze.dims)
      modifies this
      ensures firingDir == old(firingDir)
      ensures var s := Aim(old(entities)[0].player, old(firingDir), now, old(nextFireTime), maze);
        if s.NoShot? then
          entities == old(entities) && nextFireTime == old(nextFireTime) && bulletFireStart == old(bulletFireStart)
        else
          && bulletFireStart == now && nextFireTime == now + bulletFiringTime
          && entities == AfterShot(old(entities), s.cell, s.dir, elapsed, maze.dims)
    {
      var player := entities[0].player;
      if player.state != Alive || nextFireTime > now {
        return;
      }
      var dir := EffectiveFiringDir();
      var cell := Spawns.FiringCell(player.pos, dir, maze.dims);
      if cell.None? {
        return;
      }
      var pos := cell.value;
      if maze.isWall(pos.row, pos.col) {
        return;
      }
      bulletFireStart := now;
      nextFireTime := bulletFireStart + bulletFiringTime;
      var target := FindTarget(pos);
      if target.Some? {
        var j := target.value;
        entities := entities[j := ExplodeEntity(entities[j])];
        return;
      }
      entities := entities + [EBullet(Bullet(elapsed, pos, dir, Alive))];
    }

    /** `start_firing`: a newly pressed bit is added and fires at once; a held one does nothing. */
    method StartFiring(d: Direction, now: nat, elapsed: nat)
      requires HasPlayer() && ValidDims(maze.dims)
      modifies this
      ensures old(firingDir) & d != 0 ==>
        && firingDir == old(firingDir) && entities == old(entities)
        && nextFireTime == old(nextFireTime) && bulletFireStart == old(bulletFireStart)
      ensures old(firingDir) & d == 0 ==>
        && firingDir == old(firingDir) | d
        && var s := Aim(old(entities)[0].player, firingDir, now, old(nextFireTime), maze);
           if s.NoShot? then
             entities == old(entities) && nextFireTime == old(nextFireTime) && bulletFireStart == old(bulletFireStart)
           else
             && bulletFireStart == now && nextFireTime == now + bulletFiringTime
             && entities == AfterShot(old(entities), s.cell, s.dir, elapsed, maze.dims)
    {
      if firingDir & d == 0 {
        firingDir := firingDir | d;
        Fire(now, elapsed);
      }
    }

    /** `stop_firing`: exactly the given bits are released. */
    method StopFiring(d: Direction)
      modifies this
      ensures firingDir == old(firingDir) & !d
      ensures entities == old(entities) && nextFireTime == old(nextFireTime) && bulletFireStart == old(bulletFireStart)
    {
      firingDir := firingDir & !d;
    }
  }

  /**
   * A shot never touches the player and changes at most one entity: any
   * two indices that change are the same.
   */
  lemma ShotChangesAtMostOne(es: seq<Entity>, cell: Position, dir: Direction, elapsed: nat, dims: Dimensions, k1: nat, k2: nat)
    requires ValidDims(dims)
    requires var r := AfterShot(es, cell, dir, elapsed, dims);
      |r| == |es| && k1 < |es| && k2 < |es| && r[k1] != es[k1] && r[k2] != es[k2]
    ensures k1 == k2 && k1 >= 1
  {
  }

  /** Firing along a held opposing pair alone is no shot: both bits cancel. */
  lemma OpposingPairDoesNotFire(player: Player, now: nat, nextFireTime: nat, maze: Walls)
    requires ValidDims(maze.dims)
    ensures Aim(player, UP | DOWN, now, nextFireTime, maze).NoShot?
    ensures Aim(player, LEFT | RIGHT, now, nextFireTime, maze).NoShot?
    ensures Aim(player, UP | DOWN | LEFT, now, nextFireTime, maze).Shot? ==>
      Aim(player, UP | DOWN | LEFT, now, nextFireTime, maze).dir == LEFT
  {
  }
}
