/**
 * The earlier entity records (rats/src/entities.rs), on which the first
 * frame-counting game context works: timestamps in frames named `updated`,
 * a three-valued life cycle, rats and baby rats, and a `Position` whose
 * multi-step moves update its fields in place.
 */
module OldEntities {
  import opened Directions
  import opened Positions

  /** The three-valued life cycle of this revision. */
  datatype OldState = Alive | Exploding | Dead

  datatype Player = Player(updated: nat, pos: Position, dir: Direction, stopDir: Direction, state: OldState, cycle: nat)

  datatype Rat = Rat(updated: nat, pos: Position, dir: Direction, state: OldState, cycle: nat)

  datatype BabyRat = BabyRat(updated: nat, pos: Position, dir: Direction, state: OldState, cycle: nat)

  datatype RatFactory = RatFactory(updated: nat, pos: Position, state: OldState, cycle: nat)

  datatype Bullet = Bullet(updated: nat, pos: Position, dir: Direction, state: OldState)

  datatype Entity =
    | EPlayer(player: Player)
    | ERat(rat: Rat)
    | EBabyRat(babyRat: BabyRat)
    | ERatFactory(factory: RatFactory)
    | EBullet(bullet: Bullet)

  /**
   * A `Position` that receives `&mut self` calls: the moves below change
   * its two fields one step per iteration.
   */
  class MutablePosition {
    var row: nat
    var col: nat

    function Value(): Position
      reads this
    {
      Position(row, col)
    }

    constructor (p: Position)
      ensures Value() == p
    {
      row, col := p.row, p.col;
    }

    /** `move_left`: `steps` wrapping steps to the left. */
    method MoveLeft(steps: nat, dim: Dimensions)
      requires ValidDims(dim)
      modifies this
      ensures Value() == LeftBy(old(Value()), steps, dim)
    {
      ghost var start := Value();
      var s := steps;
      while s > 0
        invariant 0 <= s <= steps
        invariant Value() == LeftBy(start, steps - s, dim)
      {
        col := if col == 0 then dim.cols - 1 else col - 1;
        s := s - 1;
      }
    }

    /** `move_right`: `steps` wrapping steps to the right. */
    method MoveRight(steps: nat, dim: Dimensions)
      requires ValidDims(dim)
      modifies this
      ensures Value() == RightBy(old(Value()), steps, dim)
    {
      ghost var start := Value();
      var s := steps;
      while s > 0
        invariant 0 <= s <= steps
        invariant Value() == RightBy(start, steps - s, dim)
      {
        col := if col < dim.cols - 1 then col + 1 else 0;
        s := s - 1;
      }
    }

    /** `move_up`: `steps` wrapping steps up. */
    method MoveUp(steps: nat, dim: Dimensions)
      requires ValidDims(dim)
      modifies this
      ensures Value() == UpBy(old(Value()), steps, dim)
    {
      ghost var start := Value();
      var s := steps;
      while s > 0
        invariant 0 <= s <= steps
        invariant Value() == UpBy(start, steps - s, dim)
      {
        row := if row > 0 then row - 1 else dim.rows - 1;
        s := s - 1;
      }
    }

    /** `move_down`: `steps` wrapping steps down. */
    method MoveDown(steps: nat, dim: Dimensions)
      requires ValidDims(dim)
      modifies this
      ensures Value() == DownBy(old(Value()), steps, dim)
    {
      ghost var start := Value();
      var s := steps;
      while s > 0
        invariant 0 <= s <= steps
        invariant Value() == DownBy(start, steps - s, dim)
      {
        row := if row < dim.rows - 1 then row + 1 else 0;
        s := s - 1;
      }
    }
  }
}
