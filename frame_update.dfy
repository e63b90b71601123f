/**
 * The frame-counting update pass of the game context
 * (rats/src/game_context/update.rs), on the earlier entity records: the
 * player slides only onto wall-free blocks, bullets fly one cell per few
 * frames, and the list of entities is rewritten by computing every
 * entity's action first and then applying the actions from the last index
 * down, deleting by swapping with the last entity and truncating.
 */
module FrameUpdate {
  import opened Directions
  import opened Positions
  import opened Mazes
  import opened OldEntities
  import SizeWrapping
  import BulletEntity

  /** Frames per unit of motion. */
  const PLAYER_FRAMES: nat := 5
  const BULLET_FRAMES: nat := 3

  /** What updating one entity asks the pass to do at that entity's index. */
  datatype Action = Nothing | Delete | Update(entity: Entity)

  // ---------------------------------------------------------------- player

  /**
   * `Player::can_advance` of this revision: the 2×2 block shifted one step
   * along one of the eight named directions must not meet a wall. Any other
   * mask, NONE included, is refused.
   */
  function CanAdvance(p: Player, walls: Walls, d: Direction): (r: bool)
    requires ValidDims(walls.dims)
    ensures r <==> IsNamed(d) && !walls.isWallQuad(Advanced(p.pos, d, walls.dims).row, Advanced(p.pos, d, walls.dims).col)
  {
    if IsNamed(d) then
      var t := BulletEntity.Target(p.pos, d, walls.dims);
      !walls.isWallQuad(t.row, t.col)
    else false
  }

  /** One component of a blocked move: taken if the bit is held and the step is allowed. */
  function TryStep(p: Player, bit: Direction, walls: Walls): Player
    requires ValidDims(walls.dims)
  {
    if p.dir & bit != 0 && CanAdvance(p, walls, bit) then p.(pos := Advanced(p.pos, bit, walls.dims)) else p
  }

  /**
   * The player's cell after one movement: the whole direction if allowed,
   * otherwise each held bit in the order UP, DOWN, LEFT, RIGHT.
   */
  function Slide(p: Player, walls: Walls): Position
    requires ValidDims(walls.dims)
  {
    if CanAdvance(p, walls, p.dir) then Advanced(p.pos, p.dir, walls.dims)
    else TryStep(TryStep(TryStep(TryStep(p, UP, walls), DOWN, walls), LEFT, walls), RIGHT, walls).pos
  }

  /** The action `update_player` computes for the player at frame `frames`. */
  function PlayerAction(p: Player, walls: Walls, frames: nat): (a: Action)
    requires ValidDims(walls.dims)
    ensures a.Nothing? <==> frames < p.updated + PLAYER_FRAMES
    ensures !a.Nothing? ==> a.Update? && a.entity.EPlayer? && a.entity.player.updated == frames + PLAYER_FRAMES
  {
    if frames < p.updated + PLAYER_FRAMES then Nothing
    else Update(EPlayer(p.(pos := Slide(p, walls), updated := frames + PLAYER_FRAMES, cycle := (p.cycle + 1) % 4)))
  }

  /** One guarded step of a blocked move, on the local copy. */
  method StepIfAllowed(p: Player, bit: Direction, walls: Walls) returns (q: Player)
    requires ValidDims(walls.dims)
    ensures q == TryStep(p, bit, walls)
  {
    q := p;
    if p.dir & bit != 0 && CanAdvance(p, walls, bit) {
      var pos := Positions.Advance(p.pos, bit, walls.dims);
      q := p.(pos := pos);
    }
  }

  /** The movement part of `update_player`, on the local copy. */
  method SlideAlong(player: Player, walls: Walls) returns (p: Player)
    requires ValidDims(walls.dims)
    ensures p == player.(pos := Slide(player, walls))
  {
    p := player;
    if CanAdvance(p, walls, p.dir) {
      var pos := Positions.Advance(p.pos, p.dir, walls.dims);
      p := p.(pos := pos);
    } else {
      p := StepIfAllowed(p, UP, walls);
      p := StepIfAllowed(p, DOWN, walls);
      p := StepIfAllowed(p, LEFT, walls);
      p := StepIfAllowed(p, RIGHT, walls);
    }
  }

  /** `update_player`: nothing before it is due, then slide and step the cycle. */
  method UpdatePlayer(player: Player, walls: Walls, frames: nat) returns (a: Action)
    requires ValidDims(walls.dims)
    ensures a == PlayerAction(player, walls, frames)
  {
    if frames < player.updated + PLAYER_FRAMES {
      return Nothing;
    }
    var p := SlideAlong(player, walls);
    a := Update(EPlayer(p.(updated := frames + PLAYER_FRAMES, cycle := (p.cycle + 1) % 4)));
  }

  lemma TryStepAvoidsWalls(p: Player, bit: Direction, walls: Walls)
    requires ValidDims(walls.dims) && InRange(p.pos, walls.dims) && !walls.isWallQuad(p.pos.row, p.pos.col)
    ensures TryStep(p, bit, walls).dir == p.dir
    ensures InRange(TryStep(p, bit, walls).pos, walls.dims)
    ensures !walls.isWallQuad(TryStep(p, bit, walls).pos.row, TryStep(p, bit, walls).pos.col)
  {
    Positions.AdvanceAxes(p.pos, bit, walls.dims);
  }

  /**
   * The player never slides onto a block the maze reports as walled: from
   * a free in-range block it ends on a free in-range block.
   */
  lemma SlideAvoidsWalls(p: Player, walls: Walls)
    requires ValidDims(walls.dims) && InRange(p.pos, walls.dims) && !walls.isWallQuad(p.pos.row, p.pos.col)
    ensures InRange(Slide(p, walls), walls.dims)
    ensures !walls.isWallQuad(Slide(p, walls).row, Slide(p, walls).col)
  {
    if CanAdvance(p, walls, p.dir) {
      Positions.AdvanceAxes(p.pos, p.dir, walls.dims);
    } else {
      var p1 := TryStep(p, UP, walls);
      TryStepAvoidsWalls(p, UP, walls);
      var p2 := TryStep(p1, DOWN, walls);
      TryStepAvoidsWalls(p1, DOWN, walls);
      var p3 := TryStep(p2, LEFT, walls);
      TryStepAvoidsWalls(p2, LEFT, walls);
      TryStepAvoidsWalls(p3, RIGHT, walls);
    }
  }

  /**
   * The player's update never deletes it: when due it is replaced by a
   * player with the same direction, facing and state, due again
   * PLAYER_FRAMES later.
   */
  lemma PlayerActionKeepsPlayer(p: Player, walls: Walls, frames: nat)
    requires ValidDims(walls.dims)
    ensures var a := PlayerAction(p, walls, frames);
      && (a.Nothing? <==> frames < p.updated + PLAYER_FRAMES)
      && !a.Delete?
      && (a.Update? ==> a.entity.EPlayer?
                        && a.entity.player.(pos := p.pos, updated := p.updated, cycle := p.cycle) == p
                        && a.entity.player.updated == frames + PLAYER_FRAMES
                        && a.entity.player.cycle < 4)
  {
  }

  // ---------------------------------------------------------------- bullets

  /** Where a bullet of this revision flies: along a named direction, otherwise down. */
  function Heading(d: Direction): (h: Direction)
    ensures IsNamed(h)
    ensures IsNamed(d) ==> h == d
  {
    if IsNamed(d) then d else DOWN
  }

  /**
   * `update_bullet`: nothing before `updated + BULLET_FRAMES`; then the
   * bullet is deleted if the next cell along its heading is a wall, and
   * otherwise moved there with its direction and state kept.
   */
  function UpdateBullet(b: Bullet, walls: Walls, frames: nat): (a: Action)
    requires ValidDims(walls.dims)
    ensures a.Nothing? <==> frames < b.updated + BULLET_FRAMES
    ensures var t := Advanced(b.pos, Heading(b.dir), walls.dims);
      && (a.Delete? <==> !a.Nothing? && walls.isWall(t.row, t.col))
      && (a.Update? ==> a.entity == EBullet(b.(updated := frames + BULLET_FRAMES, pos := t)))
  {
    if frames < b.updated + BULLET_FRAMES then Nothing
    else
      var t :=
        if IsNamed(b.dir) then BulletEntity.Target(b.pos, b.dir, walls.dims)
        else Position(SizeWrapping.Inc(b.pos.row, walls.dims.rows), b.pos.col);
      if walls.isWall(t.row, t.col) then Delete
      else Update(EBullet(b.(updated := frames + BULLET_FRAMES, pos := t)))
  }

  // ---------------------------------------------------------------- the pass

  /** The first pass's action for one entity; rats, baby rats and factories do nothing yet. */
  function ActionFor(e: Entity, walls: Walls, frames: nat): Action
    requires ValidDims(walls.dims)
  {
    match e
    case EPlayer(p) => PlayerAction(p, walls, frames)
    case EBullet(b) => UpdateBullet(b, walls, frames)
    case _ => Nothing
  }

  /** The first pass: every action computed from the list as it was. */
  function ActionsFor(es: seq<Entity>, walls: Walls, frames: nat): (acts: seq<Action>)
    requires ValidDims(walls.dims)
    ensures |acts| == |es|
    ensures forall i :: 0 <= i < |es| ==> acts[i] == ActionFor(es[i], walls, frames)
  {
    seq(|es|, i requires 0 <= i < |es| => ActionFor(es[i], walls, frames))
  }

  /**
   * One step of the second pass at index `i`: Delete swaps the entity with
   * the last and truncates, Update overwrites in place.
   */
  function ApplyAt(es: seq<Entity>, i: nat, a: Action): (r: seq<Entity>)
    requires i < |es|
    ensures |r| == if a.Delete? then |es| - 1 else |es|
  {
    match a
    case Nothing => es
    case Delete => es[i := es[|es| - 1]][..|es| - 1]
    case Update(e) => es[i := e]
  }

  /**
   * The second pass over the first `k` actions, from index `k - 1` down to
   * 0. Each Delete shortens the list by one, and only indices above the
   * current one have been applied, so when `k <= |es|` holds at the start
   * it holds at every step: the index is always in bounds.
   */
  function ApplyDescending(es: seq<Entity>, acts: seq<Action>, k: nat): (r: seq<Entity>)
    requires k <= |acts| && k <= |es|
    ensures |es| - k <= |r| <= |es|
    decreases k
  {
    if k == 0 then es
    else ApplyDescending(ApplyAt(es, k - 1, acts[k - 1]), acts, k - 1)
  }

  /** What an entity leaves behind under its action. */
  function Outcome(e: Entity, a: Action): seq<Entity> {
    match a
    case Nothing => [e]
    case Delete => []
    case Update(x) => [x]
  }

  /** The outcomes of the entities under their actions, in index order. */
  function Contribution(es: seq<Entity>, acts: seq<Action>): seq<Entity>
    requires |es| == |acts|
    decreases |es|
  {
    if |es| == 0 then []
    else Contribution(es[..|es| - 1], acts[..|acts| - 1]) + Outcome(es[|es| - 1], acts[|acts| - 1])
  }

  function CountDeletes(acts: seq<Action>): nat
    decreases |acts|
  {
    if |acts| == 0 then 0
    else CountDeletes(acts[..|acts| - 1]) + (if acts[|acts| - 1].Delete? then 1 else 0)
  }

  /** Each non-deleted entity contributes exactly one entity. */
  lemma {:induction false} ContributionLength(es: seq<Entity>, acts: seq<Action>)
    requires |es| == |acts|
    ensures CountDeletes(acts) <= |acts|
    ensures |Contribution(es, acts)| == |es| - CountDeletes(acts)
    decreases |es|
  {
    if |es| > 0 {
      ContributionLength(es[..|es| - 1], acts[..|acts| - 1]);
    }
  }

  /** Contribution grows by one outcome per entity. */
  lemma ContributionSnoc(es: seq<Entity>, acts: seq<Action>, k: nat)
    requires 1 <= k <= |es| && k <= |acts|
    ensures Contribution(es[..k], acts[..k]) == Contribution(es[..k - 1], acts[..k - 1]) + Outcome(es[k - 1], acts[k - 1])
  {
    assert es[..k][..k - 1] == es[..k - 1] && acts[..k][..k - 1] == acts[..k - 1];
  }

  /**
   * One step at index `i` leaves the entries below `i` alone and replaces
   * the entries from `i` on by the outcome at `i` and the entries above
   * `i`, in some order.
   */
  lemma ApplyAtContents(es: seq<Entity>, i: nat, a: Action)
    requires i < |es|
    ensures ApplyAt(es, i, a)[..i] == es[..i]
    ensures multiset(ApplyAt(es, i, a)[i..]) == multiset(Outcome(es[i], a)) + multiset(es[i + 1..])
  {
    var n := |es|;
    var r := ApplyAt(es, i, a);
    assert es[i..] == [es[i]] + es[i + 1..];
    match a {
      case Nothing =>
      case Update(x) =>
        assert r[i..] == [x] + es[i + 1..];
      case Delete =>
        if i == n - 1 {
          assert r[i..] == [];
          assert es[i + 1..] == [];
        } else {
          assert r[i..] == [es[n - 1]] + es[i + 1..n - 1];
          assert es[i + 1..] == es[i + 1..n - 1] + [es[n - 1]];
        }
    }
  }

  /**
   * The second pass keeps, as a multiset, exactly the outcomes of the
   * applied actions together with the entities it has not reached.
   */
  lemma {:induction false} ApplyContents(es: seq<Entity>, acts: seq<Action>, k: nat)
    requires k <= |acts| && k <= |es|
    ensures multiset(ApplyDescending(es, acts, k))
         == multiset(Contribution(es[..k], acts[..k])) + multiset(es[k..])
    decreases k
  {
    if k == 0 {
      assert es[0..] == es;
    } else {
      var i := k - 1;
      var es' := ApplyAt(es, i, acts[i]);
      ApplyContents(es', acts, i);
      ApplyAtContents(es, i, acts[i]);
      ContributionSnoc(es, acts, k);
    }
  }

  /** The list shrinks by exactly the number of Deletes. */
  lemma ApplyLength(es: seq<Entity>, acts: seq<Action>)
    requires |acts| == |es|
    ensures CountDeletes(acts) <= |es|
    ensures |ApplyDescending(es, acts, |es|)| == |es| - CountDeletes(acts)
  {
    ApplyContents(es, acts, |es|);
    assert es[..|es|] == es && acts[..|acts|] == acts;
    ContributionLength(es, acts);
    assert |multiset(ApplyDescending(es, acts, |es|))| == |ApplyDescending(es, acts, |es|)|;
  }

  /**
   * Index 0 is only touched by its own action: if that action is not a
   * Delete, the front of the list is the entity's outcome.
   */
  lemma {:induction false} ApplyKeepsFront(es: seq<Entity>, acts: seq<Action>, k: nat)
    requires 1 <= k <= |acts| && k <= |es| && !acts[0].Delete?
    ensures |ApplyDescending(es, acts, k)| >= 1
    ensures ApplyDescending(es, acts, k)[0] == if acts[0].Update? then acts[0].entity else es[0]
    decreases k
  {
    if k > 1 {
      var es' := ApplyAt(es, k - 1, acts[k - 1]);
      assert es'[0] == es[0];
      ApplyKeepsFront(es', acts, k - 1);
    }
  }

  /**
   * The pass keeps the player at the front: a list that starts with a
   * player still starts with one afterwards.
   */
  lemma PassKeepsPlayer(es: seq<Entity>, walls: Walls, frames: nat)
    requires ValidDims(walls.dims) && |es| >= 1 && es[0].EPlayer?
    ensures var r := ApplyDescending(es, ActionsFor(es, walls, frames), |es|);
      |r| >= 1 && r[0].EPlayer?
  {
    var acts := ActionsFor(es, walls, frames);
    PlayerActionKeepsPlayer(es[0].player, walls, frames);
    ApplyKeepsFront(es, acts, |es|);
  }
}
