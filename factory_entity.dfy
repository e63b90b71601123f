/**
 * Rat factories (rats/src/entities/factory.rs): fixed 2×2 blocks that
 * either release a rat or blink when due, and explode in half-interval
 * frames after a hit.
 */
module FactoryEntity {
  import opened Directions
  import opened Positions
  import opened EntityTypes
  import opened Config
  import SizeWrapping

  /** `hit`: an alive factory is hit on any of the four cells of its block. */
  function Hit(f: Factory, pos: Position, dims: Dimensions): (r: bool)
    requires ValidDims(dims)
    ensures r <==> f.state == Alive && pos in QuadCells(f.pos, dims)
  {
    if f.state != Alive then false
    else if pos == f.pos then true
    else
      var row1 := SizeWrapping.Inc(f.pos.row, dims.rows);
      var col1 := SizeWrapping.Inc(f.pos.col, dims.cols);
      pos == Position(f.pos.row, col1) || pos == Position(row1, f.pos.col) || pos == Position(row1, col1)
  }

  /** `explode`: the factory starts exploding; nothing else changes. */
  function Explode(f: Factory): (q: Factory)
    ensures q.state == Exploding1
    ensures q.(state := f.state) == f
  {
    f.(state := Exploding1)
  }

  /**
   * `update_factory`. `randomDistance` stands for the value `random(5, 15)`
   * would draw. Nothing happens before the factory's next update time. An
   * alive factory asked to make a rat releases a new alive rat on its own
   * corner cell, heading right, without updating itself (so it is due again
   * at once); otherwise it blinks, toggling its cycle and waiting a full
   * interval. Explosion frames last half an interval and a dead factory is
   * deleted. A factory never moves.
   */
  function UpdateFactory(f: Factory, now: nat, makeRat: bool, randomDistance: nat): (a: Action)
    ensures a.Nothing? <==> now < f.update + FACTORY_UPDATE_MS
    ensures a.New? <==> !a.Nothing? && f.state == Alive && makeRat
    ensures a.New? ==> a.entity == ERat(Rat(now, randomDistance, f.pos, RIGHT, Alive, 0))
    ensures a.Delete? <==> !a.Nothing? && f.state == Dead
    ensures a.Update? ==> a.entity.EFactory? && a.entity.factory.pos == f.pos
    ensures a.Update? && f.state == Alive ==>
      a.entity.factory == f.(update := now + FACTORY_UPDATE_MS, cycle := (f.cycle + 1) % 2)
    ensures a.Update? && f.state != Alive ==>
      && Stage(a.entity.factory.state) == Stage(f.state) + 1
      && a.entity.factory == f.(state := a.entity.factory.state, update := now + FACTORY_UPDATE_MS / 2)
    ensures a.Nothing? || a.New? || a.Delete? || a.Update?
  {
    if now < f.update + FACTORY_UPDATE_MS then Nothing
    else
      match f.state
      case Alive =>
        if makeRat then New(ERat(Rat(now, randomDistance, f.pos, RIGHT, Alive, 0)))
        else Update(EFactory(f.(update := now + FACTORY_UPDATE_MS, cycle := (f.cycle + 1) % 2)))
      case Exploding1 => Update(EFactory(f.(update := now + FACTORY_UPDATE_MS / 2, state := Exploding2)))
      case Exploding2 => Update(EFactory(f.(update := now + FACTORY_UPDATE_MS / 2, state := Exploding3)))
      case Exploding3 => Update(EFactory(f.(update := now + FACTORY_UPDATE_MS / 2, state := Dead)))
      case Dead => Delete
  }

  /**
   * A blinking factory alternates between its two animation frames. Since
   * it stores its next update time one interval ahead and is due one
   * interval after that, consecutive blinks are two intervals apart.
   */
  lemma BlinkAlternates(f: Factory, now: nat)
    requires f.state == Alive && f.cycle < 2 && now >= f.update + FACTORY_UPDATE_MS
    ensures var a := UpdateFactory(f, now, false, 0);
      && a.entity.factory.cycle != f.cycle
      && UpdateFactory(a.entity.factory, now + 2 * FACTORY_UPDATE_MS, false, 0).entity.factory.cycle == f.cycle
  {
  }

  /**
   * An exploding factory, updated once its half interval has passed each
   * time, shows its remaining frames and is deleted on the fourth update.
   */
  lemma ExplosionLasts(f: Factory, now: nat)
    requires f.state == Exploding1 && now >= f.update + FACTORY_UPDATE_MS
    ensures var h := FACTORY_UPDATE_MS / 2;
      && UpdateFactory(f, now, false, 0) == Update(EFactory(f.(state := Exploding2, update := now + h)))
      && UpdateFactory(f.(state := Exploding2, update := now + h), now + h + FACTORY_UPDATE_MS, false, 0)
         == Update(EFactory(f.(state := Exploding3, update := now + 2 * h + FACTORY_UPDATE_MS)))
      && UpdateFactory(f.(state := Exploding3, update := now + 2 * h + FACTORY_UPDATE_MS),
                       now + 2 * h + 2 * FACTORY_UPDATE_MS, false, 0)
         == Update(EFactory(f.(state := Dead, update := now + 3 * h + 2 * FACTORY_UPDATE_MS)))
      && UpdateFactory(f.(state := Dead, update := now + 3 * h + 2 * FACTORY_UPDATE_MS),
                       now + 3 * h + 3 * FACTORY_UPDATE_MS, false, 0).Delete?
  {
  }
}
