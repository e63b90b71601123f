/**
 * The first, frame-counting game context (rats/src/game_context.rs): one
 * player object, the held movement keys, and a list of bullets made of a
 * cell and a direction. Firing puts a bullet next to the player when the
 * cell is empty; advancing moves every bullet one cell and removes, by
 * swapping it with the last one, each bullet that left the empty cells.
 *
 * As written, `advance_bullets` steps past the slot it has just filled
 * with the former last bullet, so that bullet is neither moved nor
 * checked on that pass. `AsWrittenFrom` and `AdvanceBullets` model the code
 * as it stands; `CorrectedFrom` and `AdvanceBulletsCorrected` revisit the
 * slot, and only they move every bullet exactly once.
 */
module OldGameContexts {
  import opened Directions
  import opened Positions
  import opened Mazes
  import OldPlayer
  import Spawns
  import FrameUpdate
  import BulletEntity
  import SizeWrapping

  /** A bullet of this revision: a cell and the direction it flies in. */
  datatype OldBullet = OldBullet(pos: Position, dir: Direction)

  /** The move of one bullet in `advance_bullets`: one cell along a named direction, down otherwise. */
  function Step(b: OldBullet, dims: Dimensions): (s: OldBullet)
    requires ValidDims(dims)
    ensures s.dir == b.dir
    ensures s.pos == Advanced(b.pos, FrameUpdate.Heading(b.dir), dims)
  {
    if IsNamed(b.dir) then OldBullet(BulletEntity.Target(b.pos, b.dir, dims), b.dir)
    else OldBullet(Position(SizeWrapping.Inc(b.pos.row, dims.rows), b.pos.col), b.dir)
  }

  predicate OnEmpty(b: OldBullet, walls: Walls) {
    walls.empty1(b.pos.row, b.pos.col)
  }

  /**
   * The bullets a pass should leave, in their original order: every
   * bullet moved once, and kept exactly when its new cell is empty.
   */
  function Survivors(bs: seq<OldBullet>, walls: Walls): (r: seq<OldBullet>)
    requires ValidDims(walls.dims)
    ensures |r| <= |bs|
    ensures forall k :: 0 <= k < |r| ==> OnEmpty(r[k], walls)
  {
    if bs == [] then []
    else
      var s := Step(bs[0], walls.dims);
      (if OnEmpty(s, walls) then [s] else []) + Survivors(bs[1..], walls)
  }

  /** `swap(i, last)` unless `i` is the last slot, then `truncate(last)`. */
  function SwapRemove(bs: seq<OldBullet>, i: nat): (r: seq<OldBullet>)
    requires i < |bs|
    ensures |r| == |bs| - 1
    ensures r == bs[i := bs[|bs| - 1]][..|bs| - 1]
  {
    var last := |bs| - 1;
    (if i != last then bs[i := bs[last]][last := bs[i]] else bs)[..last]
  }

  /** The rest of `advance_bullets` from slot `i`, as written: the index moves on after a removal too. */
  function AsWrittenFrom(bs: seq<OldBullet>, i: nat, walls: Walls): seq<OldBullet>
    requires ValidDims(walls.dims)
    decreases |bs| - i
  {
    if i >= |bs| then bs
    else
      var moved := bs[i := Step(bs[i], walls.dims)];
      if OnEmpty(moved[i], walls) then AsWrittenFrom(moved, i + 1, walls)
      else AsWrittenFrom(SwapRemove(moved, i), i + 1, walls)
  }

  /**
   * The pass as written still keeps bullets off walls: when every bullet
   * starts on an empty cell, every bullet left ends on one. A kept bullet
   * was checked after its move, and the skipped one never moved.
   */
  lemma {:induction false} AsWrittenKeepsEmpty(bs: seq<OldBullet>, i: nat, walls: Walls)
    requires ValidDims(walls.dims)
    requires forall k :: 0 <= k < |bs| ==> OnEmpty(bs[k], walls)
    ensures forall b :: b in AsWrittenFrom(bs, i, walls) ==> OnEmpty(b, walls)
    decreases |bs| - i
  {
    if i < |bs| {
      var moved := bs[i := Step(bs[i], walls.dims)];
      if OnEmpty(moved[i], walls) {
        AsWrittenKeepsEmpty(moved, i + 1, walls);
      } else {
        var rest := SwapRemove(moved, i);
        assert forall k :: 0 <= k < |rest| ==> OnEmpty(rest[k], walls) by {
          forall k | 0 <= k < |rest|
            ensures OnEmpty(rest[k], walls)
          {
            if k == i {
              assert rest[k] == bs[|bs| - 1];
            } else {
              assert rest[k] == bs[k];
            }
          }
        }
        AsWrittenKeepsEmpty(rest, i + 1, walls);
      }
    }
  }

  /** The rest of the pass from slot `i` with the index kept after a removal. */
  function CorrectedFrom(bs: seq<OldBullet>, i: nat, walls: Walls): seq<OldBullet>
    requires ValidDims(walls.dims)
    decreases |bs| - i
  {
    if i >= |bs| then bs
    else
      var moved := bs[i := Step(bs[i], walls.dims)];
      if OnEmpty(moved[i], walls) then CorrectedFrom(moved, i + 1, walls)
      else CorrectedFrom(SwapRemove(moved, i), i, walls)
  }

  lemma {:induction false} SurvivorsAppend(a: seq<OldBullet>, b: seq<OldBullet>, walls: Walls)
    requires ValidDims(walls.dims)
    ensures Survivors(a + b, walls) == Survivors(a, walls) + Survivors(b, walls)
  {
    if a != [] {
      assert (a + b)[0] == a[0];
      assert (a + b)[1..] == a[1..] + b;
      SurvivorsAppend(a[1..], b, walls);
    } else {
      assert a + b == b;
    }
  }

  /** Survivors of a non-empty list: those of its head, then those of its tail. */
  lemma SurvivorsCons(bs: seq<OldBullet>, i: nat, walls: Walls)
    requires ValidDims(walls.dims) && i < |bs|
    ensures var s := Step(bs[i], walls.dims);
      Survivors(bs[i..], walls) == (if OnEmpty(s, walls) then [s] else []) + Survivors(bs[i + 1..], walls)
  {
    assert bs[i..][0] == bs[i];
    assert bs[i..][1..] == bs[i + 1..];
  }

  /**
   * The corrected pass from slot `i` keeps the slots before `i` and turns
   * the rest into their survivors, up to order.
   */
  lemma {:induction false} CorrectedFromSurvivors(bs: seq<OldBullet>, i: nat, walls: Walls)
    requires ValidDims(walls.dims) && i <= |bs|
    ensures multiset(CorrectedFrom(bs, i, walls)) == multiset(bs[..i]) + multiset(Survivors(bs[i..], walls))
    decreases |bs| - i, 1
  {
    if i == |bs| {
      assert bs[..i] == bs;
      assert bs[i..] == [];
    } else if OnEmpty(Step(bs[i], walls.dims), walls) {
      KeptStep(bs, i, walls);
    } else {
      RemovedStep(bs, i, walls);
    }
  }

  /** The step of `CorrectedFromSurvivors` for a bullet that lands on an empty cell. */
  lemma {:induction false} KeptStep(bs: seq<OldBullet>, i: nat, walls: Walls)
    requires ValidDims(walls.dims) && i < |bs| && OnEmpty(Step(bs[i], walls.dims), walls)
    ensures multiset(CorrectedFrom(bs, i, walls)) == multiset(bs[..i]) + multiset(Survivors(bs[i..], walls))
    decreases |bs| - i, 0
  {
    var s := Step(bs[i], walls.dims);
    var moved := bs[i := s];
    CorrectedFromSurvivors(moved, i + 1, walls);
    assert moved[..i + 1] == bs[..i] + [s];
    assert moved[i + 1..] == bs[i + 1..];
    SurvivorsCons(bs, i, walls);
    calc {
      multiset(CorrectedFrom(bs, i, walls));
      multiset(CorrectedFrom(moved, i + 1, walls));
      multiset(bs[..i] + [s]) + multiset(Survivors(bs[i + 1..], walls));
      multiset(bs[..i]) + multiset([s] + Survivors(bs[i + 1..], walls));
    }
  }

  /** The step of `CorrectedFromSurvivors` for a bullet that leaves the empty cells. */
  lemma {:induction false} RemovedStep(bs: seq<OldBullet>, i: nat, walls: Walls)
    requires ValidDims(walls.dims) && i < |bs| && !OnEmpty(Step(bs[i], walls.dims), walls)
    ensures multiset(CorrectedFrom(bs, i, walls)) == multiset(bs[..i]) + multiset(Survivors(bs[i..], walls))
    decreases |bs| - i, 0
  {
    var rest := SwapRemove(bs[i := Step(bs[i], walls.dims)], i);
    assert CorrectedFrom(bs, i, walls) == CorrectedFrom(rest, i, walls);
    CorrectedFromSurvivors(rest, i, walls);
    SwapRemoveParts(bs, Step(bs[i], walls.dims), i);
    SurvivorsCons(bs, i, walls);
    if i < |bs| - 1 {
      RotatedSurvivors(bs[|bs| - 1], bs[i + 1..|bs| - 1], walls);
    }
  }

  /** What removing slot `i` after overwriting it with `s` leaves before and after `i`. */
  lemma SwapRemoveParts(bs: seq<OldBullet>, s: OldBullet, i: nat)
    requires i < |bs|
    ensures SwapRemove(bs[i := s], i)[..i] == bs[..i]
    ensures i == |bs| - 1 ==> SwapRemove(bs[i := s], i)[i..] == [] && bs[i + 1..] == []
    ensures i < |bs| - 1 ==> SwapRemove(bs[i := s], i)[i..] == [bs[|bs| - 1]] + bs[i + 1..|bs| - 1]
    ensures i < |bs| - 1 ==> bs[i + 1..] == bs[i + 1..|bs| - 1] + [bs[|bs| - 1]]
  {
  }

  /** Moving a bullet from the back of a list to its front leaves the same survivors, up to order. */
  lemma RotatedSurvivors(x: OldBullet, m: seq<OldBullet>, walls: Walls)
    requires ValidDims(walls.dims)
    ensures multiset(Survivors([x] + m, walls)) == multiset(Survivors(m + [x], walls))
  {
    SurvivorsAppend([x], m, walls);
    SurvivorsAppend(m, [x], walls);
  }

  /**
   * The intended behaviour of `advance_bullets`: with the index kept after
   * a removal, one pass leaves exactly the moved bullets on empty cells,
   * each once, in some order.
   */
  lemma CorrectedAdvancesEach(bs: seq<OldBullet>, walls: Walls)
    requires ValidDims(walls.dims)
    ensures multiset(CorrectedFrom(bs, 0, walls)) == multiset(Survivors(bs, walls))
    ensures forall b :: b in CorrectedFrom(bs, 0, walls) ==> OnEmpty(b, walls)
  {
    CorrectedFromSurvivors(bs, 0, walls);
    assert bs[..0] == [];
    assert bs[0..] == bs;
    var r := CorrectedFrom(bs, 0, walls);
    var sv := Survivors(bs, walls);
    assert multiset(r) == multiset(sv);
    forall b | b in r
      ensures OnEmpty(b, walls)
    {
      assert b in multiset(r);
      assert b in multiset(sv);
      assert b in sv;
      var k :| 0 <= k < |sv| && sv[k] == b;
    }
  }

  /**
   * The pass as written on a 4×4 grid whose only non-empty cell is (1, 0):
   * bullet `a` at (0, 0) flies down into the wall and is swapped with `b`
   * at (2, 2), which the pass then steps over; `b` stays where it was
   * instead of reaching (3, 2).
   */
  lemma AsWrittenSkipsSwappedBullet()
    ensures var walls := Walls(Dimensions(4, 4), (r, c) => false, (r, c) => false, (r: nat, c: nat) => !(r == 1 && c == 0));
      var a, b := OldBullet(Position(0, 0), DOWN), OldBullet(Position(2, 2), DOWN);
      && AsWrittenFrom([a, b], 0, walls) == [b]
      && Survivors([a, b], walls) == [OldBullet(Position(3, 2), DOWN)]
      && CorrectedFrom([a, b], 0, walls) == [OldBullet(Position(3, 2), DOWN)]
  {
    var walls := Walls(Dimensions(4, 4), (r, c) => false, (r, c) => false, (r: nat, c: nat) => !(r == 1 && c == 0));
    var a, b := OldBullet(Position(0, 0), DOWN), OldBullet(Position(2, 2), DOWN);
    var a1, b1 := Step(a, walls.dims), Step(b, walls.dims);
    assert a1.pos == Position(1, 0);
    assert b1.pos == Position(3, 2);
    assert [a, b][0 := a1] == [a1, b];
    assert SwapRemove([a1, b], 0) == [b];
    assert AsWrittenFrom([a, b], 0, walls) == AsWrittenFrom([b], 1, walls);
    assert [a, b][1..] == [b];
    assert Survivors([b], walls) == [b1] + Survivors([], walls);
    assert CorrectedFrom([a, b], 0, walls) == CorrectedFrom([b], 0, walls);
    assert [b][0 := b1] == [b1];
    assert CorrectedFrom([b], 0, walls) == CorrectedFrom([b1], 1, walls);
  }

  class OldGameContext {
    var frames: nat
    const maze: Walls
    const player: OldPlayer.Player
    var direction: Direction
    var stopDirection: Direction
    var bullets: seq<OldBullet>

    /** The player lives in the context's maze. */
    predicate Valid()
      reads this, player
    {
      player.Valid() && player.Dims() == maze.dims
    }

    /**
     * `create`, after the maze is built: the player starts in the middle
     * of the maze and then walks right half a maze cell and down half a
     * maze cell, one `advance` at a time. `cellRows` and `cellCols` stand
     * for the maze module's cell size, which is not part of this model.
     */
    constructor (walls: Walls, cellRows: nat, cellCols: nat)
      requires ValidDims(walls.dims)
      ensures Valid() && maze == walls && fresh(player)
      ensures player.Pos() == Position((walls.dims.rows / 2 + cellRows / 2) % walls.dims.rows,
                                       (walls.dims.cols / 2 + cellCols / 2) % walls.dims.cols)
      ensures frames == 0 && direction == NONE && stopDirection == DOWN && bullets == []
    {
      var dims := walls.dims;
      var p := new OldPlayer.Player(dims.rows, dims.cols);
      ghost var start := p.Pos();
      var k := 0;
      while k < cellCols / 2
        invariant 0 <= k <= cellCols / 2
        invariant p.Valid() && p.Dims() == dims
        invariant p.Pos() == RightBy(start, k, dims)
      {
        p.Advance(RIGHT);
        k := k + 1;
      }
      ghost var across := p.Pos();
      k := 0;
      while k < cellRows / 2
        invariant 0 <= k <= cellRows / 2
        invariant p.Valid() && p.Dims() == dims
        invariant p.Pos() == DownBy(across, k, dims)
      {
        p.Advance(DOWN);
        k := k + 1;
      }
      HorizontalMoves(start, cellCols / 2, dims);
      VerticalMoves(across, cellRows / 2, dims);
      frames := 0;
      maze := walls;
      player := p;
      direction, stopDirection := NONE, DOWN;
      bullets := [];
    }

    /** `start`: the key is added, and the stop direction follows the combined mask. */
    method Start(d: Direction)
      modifies this
      ensures direction == old(direction) | d
      ensures stopDirection == StopDir(direction) && IsCardinal(stopDirection)
      ensures bullets == old(bullets) && frames == old(frames)
    {
      direction := direction | d;
      stopDirection := StopDir(direction);
    }

    /** `stop`: exactly the given bits are released. */
    method Stop(d: Direction)
      modifies this
      ensures direction == old(direction) & !d
      ensures stopDirection == old(stopDirection) && bullets == old(bullets) && frames == old(frames)
    {
      direction := direction & !d;
    }

    /**
     * `fire`: along the held keys, or the stop direction when none is
     * held, a bullet is appended on the spawn cell when that cell is
     * empty; otherwise nothing changes.
     */
    method Fire()
      requires Valid()
      modifies this
      ensures var dir := if old(direction) == NONE then old(stopDirection) else old(direction);
        var cell := Spawns.FireCell(player.Pos(), dir, maze.dims);
        bullets == if maze.empty1(cell.row, cell.col) then old(bullets) + [OldBullet(cell, dir)] else old(bullets)
      ensures direction == old(direction) && stopDirection == old(stopDirection) && frames == old(frames)
    {
      var pos := player.Pos();
      var dir := if direction == NONE then stopDirection else direction;
      var cell := Spawns.FireCell(pos, dir, maze.dims);
      if maze.empty1(cell.row, cell.col) {
        bullets := bullets + [OldBullet(cell, dir)];
      }
    }

    /** `advance_bullets` as written: after a removal the index moves on past the swapped-in bullet. */
    method AdvanceBullets()
      requires ValidDims(maze.dims)
      modifies this
      ensures bullets == AsWrittenFrom(old(bullets), 0, maze)
      ensures |bullets| <= |old(bullets)|
      ensures (forall b :: b in old(bullets) ==> OnEmpty(b, maze)) ==> forall b :: b in bullets ==> OnEmpty(b, maze)
      ensures direction == old(direction) && stopDirection == old(stopDirection) && frames == old(frames)
    {
      var i: nat := 0;
      while i < |bullets|
        invariant |bullets| <= |old(bullets)|
        invariant AsWrittenFrom(bullets, i, maze) == AsWrittenFrom(old(bullets), 0, maze)
        invariant direction == old(direction) && stopDirection == old(stopDirection) && frames == old(frames)
        decreases |bullets| - i
      {
        bullets := bullets[i := Step(bullets[i], maze.dims)];
        if !OnEmpty(bullets[i], maze) {
          var last := |bullets| - 1;
          if i != last {
            bullets := bullets[i := bullets[last]][last := bullets[i]];
          }
          bullets := bullets[..last];
        }
        i := i + 1;
      }
      if forall b :: b in old(bullets) ==> OnEmpty(b, maze) {
        AsWrittenKeepsEmpty(old(bullets), 0, maze);
      }
    }

    /**
     * `advance_bullets` with the index kept after a removal: every bullet
     * is moved once, and exactly those on empty cells remain.
     */
    method AdvanceBulletsCorrected()
      requires ValidDims(maze.dims)
      modifies this
      ensures bullets == CorrectedFrom(old(bullets), 0, maze)
      ensures multiset(bullets) == multiset(Survivors(old(bullets), maze))
      ensures direction == old(direction) && stopDirection == old(stopDirection) && frames == old(frames)
    {
      CorrectedAdvancesEach(bullets, maze);
      var i: nat := 0;
      while i < |bullets|
        invariant CorrectedFrom(bullets, i, maze) == CorrectedFrom(old(bullets), 0, maze)
        invariant direction == old(direction) && stopDirection == old(stopDirection) && frames == old(frames)
        decreases |bullets| - i
      {
        bullets := bullets[i := Step(bullets[i], maze.dims)];
        if OnEmpty(bullets[i], maze) {
          i := i + 1;
        } else {
          var last := |bullets| - 1;
          if i != last {
            bullets := bullets[i := bullets[last]][last := bullets[i]];
          }
          bullets := bullets[..last];
        }
      }
    }
  }
}
