/**
 * The frame-counting game context (rats/src/game_context/mod.rs with its
 * update pass from update.rs and the factory placement of factories.rs):
 * a list of entities whose first entry is the player, a frame counter, and
 * the two mazes it consults. The video handle, the clocks and the maze
 * generator are not part of this model; the maze queries are `Walls`
 * values and the cell-size constants of the maze module are parameters.
 */
module GameContexts {
  import opened Directions
  import opened Positions
  import opened Mazes
  import opened OldEntities
  import opened Optional
  import Spawns
  import FrameUpdate
  import Factories
  import SizeWrapping

  class GameContext {
    var frames: nat
    const pristineMaze: Walls
    const maze: Walls
    /** MAZE_CELL_ROWS and MAZE_CELL_COLS of the maze module. */
    const mazeCellRows: nat
    const mazeCellCols: nat
    var entities: seq<Entity>

    /** Where `create` puts the player: the middle of the first maze cell. */
    function StartPos(): Position {
      Position(mazeCellRows / 2, mazeCellCols / 2)
    }

    /**
     * `create`, after the video and the mazes exist: the list holds just
     * the player, not moving, facing down, alive, due at frame 0.
     */
    constructor (pristine: Walls, current: Walls, cellRows: nat, cellCols: nat)
      ensures pristineMaze == pristine && maze == current
      ensures mazeCellRows == cellRows && mazeCellCols == cellCols
      ensures frames == 0
      ensures entities == [EPlayer(Player(0, Position(cellRows / 2, cellCols / 2), NONE, DOWN, Alive, 0))]
    {
      frames := 0;
      pristineMaze, maze := pristine, current;
      mazeCellRows, mazeCellCols := cellRows, cellCols;
      entities := [EPlayer(Player(0, Position(cellRows / 2, cellCols / 2), NONE, DOWN, Alive, 0))];
    }

    /** `get_player`: the player at index 0; `None` where the source panics. */
    function GetPlayer(): (r: Option<Player>)
      reads this
      ensures r.Some? <==> |entities| >= 1 && entities[0].EPlayer?
      ensures r.Some? ==> entities[0] == EPlayer(r.value)
    {
      if |entities| >= 1 && entities[0].EPlayer? then Some(entities[0].player) else None
    }

    /**
     * `start`: the given bits are added to the player's direction, and its
     * facing becomes the stop direction of the bits just pressed.
     */
    method Start(d: Direction)
      requires GetPlayer().Some?
      modifies this
      ensures frames == old(frames)
      ensures var p := old(GetPlayer()).value;
        entities == old(entities)[0 := EPlayer(p.(dir := p.dir | d, stopDir := StopDir(d)))]
    {
      var p := entities[0].player;
      p := p.(dir := p.dir | d);
      p := p.(stopDir := StopDir(d));
      entities := entities[0 := EPlayer(p)];
    }

    /** `stop`: exactly the given bits are cleared from the player's direction. */
    method Stop(d: Direction)
      requires GetPlayer().Some?
      modifies this
      ensures frames == old(frames)
      ensures var p := old(GetPlayer()).value;
        entities == old(entities)[0 := EPlayer(p.(dir := p.dir & !d))]
    {
      var p := entities[0].player;
      entities := entities[0 := EPlayer(p.(dir := p.dir & !d))];
    }

    /**
     * `fire`: aim along the held direction, or the facing when nothing is
     * held, and append one alive bullet due now on the spawn cell unless
     * that cell is a wall.
     */
    method Fire()
      requires GetPlayer().Some? && ValidDims(maze.dims)
      modifies this
      ensures frames == old(frames)
      ensures var p := old(GetPlayer()).value;
        var dir := if p.dir == NONE then p.stopDir else p.dir;
        var cell := Spawns.FireCell(p.pos, dir, maze.dims);
        entities == if maze.isWall(cell.row, cell.col) then old(entities)
                    else old(entities) + [EBullet(Bullet(frames, cell, dir, Alive))]
    {
      var player := entities[0].player;
      var dir := if player.dir == NONE then player.stopDir else player.dir;
      var cell := Spawns.FireCell(player.pos, dir, maze.dims);
      if !maze.isWall(cell.row, cell.col) {
        entities := entities + [EBullet(Bullet(frames, cell, dir, Alive))];
      }
    }

    /** The first loop of `update`: each entity's action, from the list as it stands. */
    method ComputeActions() returns (acts: seq<FrameUpdate.Action>)
      requires ValidDims(pristineMaze.dims)
      ensures acts == FrameUpdate.ActionsFor(entities, pristineMaze, frames)
    {
      acts := [];
      var k := 0;
      while k < |entities|
        invariant k <= |entities|
        invariant acts == FrameUpdate.ActionsFor(entities[..k], pristineMaze, frames)
      {
        var a: FrameUpdate.Action;
        match entities[k] {
          case EPlayer(p) =>
            a := FrameUpdate.UpdatePlayer(p, pristineMaze, frames);
          case EBullet(b) =>
            a := FrameUpdate.UpdateBullet(b, pristineMaze, frames);
          case _ =>
            a := FrameUpdate.Nothing;
        }
        assert FrameUpdate.ActionsFor(entities[..k + 1], pristineMaze, frames)
            == FrameUpdate.ActionsFor(entities[..k], pristineMaze, frames) + [a];
        acts := acts + [a];
        k := k + 1;
      }
      assert entities[..k] == entities;
    }

    /**
     * The second loop of `update`: the actions from the last index down,
     * Delete swapping the entity with the last one and truncating.
     */
    method ApplyActions(acts: seq<FrameUpdate.Action>)
      requires |acts| == |entities|
      modifies this
      ensures frames == old(frames)
      ensures entities == FrameUpdate.ApplyDescending(old(entities), acts, |acts|)
    {
      var i: nat := |acts|;
      while i > 0
        invariant i <= |acts| && i <= |entities| && frames == old(frames)
        invariant FrameUpdate.ApplyDescending(entities, acts, i) == FrameUpdate.ApplyDescending(old(entities), acts, |acts|)
      {
        i := i - 1;
        match acts[i] {
          case Nothing =>
          case Delete =>
            ghost var before := entities;
            var last := |entities| - 1;
            var moved := entities[last];
            entities := entities[last := entities[i]][i := moved];
            entities := entities[..last];
            assert entities == FrameUpdate.ApplyAt(before, i, acts[i]);
          case Update(e) =>
            entities := entities[i := e];
        }
      }
    }

    /**
     * `update`: all actions are computed before any is applied. The list
     * shrinks by the number of Deletes, keeps as a multiset exactly the
     * outcomes of the actions, and keeps its player at the front.
     */
    method Update()
      requires ValidDims(pristineMaze.dims)
      modifies this
      ensures frames == old(frames)
      ensures var acts := FrameUpdate.ActionsFor(old(entities), pristineMaze, frames);
        && entities == FrameUpdate.ApplyDescending(old(entities), acts, |acts|)
        && |entities| == |old(entities)| - FrameUpdate.CountDeletes(acts)
        && multiset(entities) == multiset(FrameUpdate.Contribution(old(entities), acts))
      ensures old(GetPlayer()).Some? ==> GetPlayer().Some?
    {
      ghost var es := entities;
      var acts := ComputeActions();
      ApplyActions(acts);
      FrameUpdate.ApplyLength(es, acts);
      FrameUpdate.ApplyContents(es, acts, |es|);
      assert es[..|es|] == es && acts[..|acts|] == acts;
      if |es| >= 1 && es[0].EPlayer? {
        FrameUpdate.PassKeepsPlayer(es, pristineMaze, frames);
      }
    }

    /** The factories `generate_factories` appends for the placed positions. */
    static function FactoriesAt(ps: seq<Position>, frames: nat): (r: seq<Entity>)
      ensures |r| == |ps|
      ensures forall i :: 0 <= i < |ps| ==> r[i] == ERatFactory(RatFactory(frames, ps[i], Alive, 0))
    {
      seq(|ps|, i requires 0 <= i < |ps| => ERatFactory(RatFactory(frames, ps[i], Alive, 0)))
    }

    /**
     * `generate_factories`, with the random draws given as `candidates`:
     * every kept candidate becomes an alive factory due now, appended after
     * the existing entities, which are left alone. At most `count` are
     * added, each on a wall-free block far from the player's start and from
     * the others (`Factories.PlacementsWellSpread`).
     */
    method GenerateFactories(count: nat, walls: Walls, candidates: seq<Position>)
      requires ValidDims(walls.dims)
      modifies this
      ensures frames == old(frames)
      ensures entities == old(entities)
        + FactoriesAt(Factories.Placements(candidates, count, [], walls, StartPos()), frames)
    {
      var generated := 0;
      var positions: seq<Position> := [];
      var playerPos := StartPos();
      var k := 0;
      while generated < count && k < |candidates|
        invariant k <= |candidates| && generated == |positions| && frames == old(frames)
        invariant Factories.Placements(candidates[k..], count, positions, walls, playerPos)
               == Factories.Placements(candidates, count, [], walls, playerPos)
        invariant entities == old(entities) + FactoriesAt(positions, frames)
      {
        var pos := candidates[k];
        assert candidates[k..][1..] == candidates[k + 1..];
        k := k + 1;
        var row2 := SizeWrapping.Inc(pos.row, walls.dims.rows);
        var col2 := SizeWrapping.Inc(pos.col, walls.dims.cols);
        if walls.isWall(pos.row, pos.col) || walls.isWall(pos.row, col2)
          || walls.isWall(row2, pos.col) || walls.isWall(row2, col2) {
          continue;
        }
        if Factories.DistanceSquared(pos, playerPos, walls.dims) < Factories.MIN_PLAYER_DISTANCE {
          continue;
        }
        var far := Factories.ScanPlaced(pos, positions, walls.dims);
        if !far {
          continue;
        }
        assert FactoriesAt(positions + [pos], frames) == FactoriesAt(positions, frames) + [ERatFactory(RatFactory(frames, pos, Alive, 0))];
        positions := positions + [pos];
        entities := entities + [ERatFactory(RatFactory(frames, pos, Alive, 0))];
        generated := generated + 1;
      }
    }
  }
}
