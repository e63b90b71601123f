/**
 * Factory placement (rats/src/game_context/factories.rs): candidate corner
 * cells are drawn at random and each is kept only if its 2×2 block is free
 * of walls, it is far enough from where the player starts, and it is not
 * too close to a factory already placed. The random draws are a sequence
 * of candidates here, and the one-second time cap becomes the end of that
 * sequence.
 */
module Factories {
  import opened Positions
  import opened Mazes
  import SizeWrapping

  /** Smallest squared distance from the player's start. */
  const MIN_PLAYER_DISTANCE: nat := 250
  /** Smallest squared distance between two factories. */
  const MIN_FACTORY_DISTANCE: nat := 25

  /**
   * `distance_squared`: the module's own copy of the torus squared
   * distance, which gives the same value as `distance_squared_to`.
   */
  function DistanceSquared(pos1: Position, pos2: Position, dims: Dimensions): (r: nat)
    ensures r == DistanceSquaredTo(pos1, pos2, dims)
    ensures r == DistanceSquaredTo(pos2, pos1, dims)
  {
    var mx := Min(Abs(pos1.col - pos2.col), dims.cols - Abs(pos1.col - pos2.col));
    var my := Min(Abs(pos1.row - pos2.row), dims.rows - Abs(pos1.row - pos2.row));
    (mx * mx + my * my) % U16_MODULUS
  }

  /** None of the four cells of the block at `pos` is a wall. */
  predicate BlockClear(walls: Walls, pos: Position)
    requires ValidDims(walls.dims)
  {
    var row2 := SizeWrapping.Inc(pos.row, walls.dims.rows);
    var col2 := SizeWrapping.Inc(pos.col, walls.dims.cols);
    !(walls.isWall(pos.row, pos.col) || walls.isWall(pos.row, col2)
      || walls.isWall(row2, pos.col) || walls.isWall(row2, col2))
  }

  /** `pos` is far enough from every position in `placed`. */
  predicate FarFromAll(pos: Position, placed: seq<Position>, dims: Dimensions) {
    forall i :: 0 <= i < |placed| ==> DistanceSquared(pos, placed[i], dims) >= MIN_FACTORY_DISTANCE
  }

  /** The three tests a candidate must pass. */
  predicate Acceptable(pos: Position, placed: seq<Position>, walls: Walls, playerPos: Position)
    requires ValidDims(walls.dims)
  {
    && BlockClear(walls, pos)
    && DistanceSquared(pos, playerPos, walls.dims) >= MIN_PLAYER_DISTANCE
    && FarFromAll(pos, placed, walls.dims)
  }

  /**
   * The positions the rejection loop ends up with: candidates are taken in
   * order and kept when acceptable, until `count` are placed or the
   * candidates run out.
   */
  function Placements(candidates: seq<Position>, count: nat, placed: seq<Position>,
                      walls: Walls, playerPos: Position): (r: seq<Position>)
    requires ValidDims(walls.dims)
    ensures |placed| <= |r| <= |placed| + |candidates|
    ensures |r| <= if |placed| >= count then |placed| else count
    decreases |candidates|
  {
    if |placed| >= count || |candidates| == 0 then placed
    else if Acceptable(candidates[0], placed, walls, playerPos) then
      Placements(candidates[1..], count, placed + [candidates[0]], walls, playerPos)
    else Placements(candidates[1..], count, placed, walls, playerPos)
  }

  /** Every placed block is clear, far from the player and far from each other placed block. */
  predicate WellSpread(ps: seq<Position>, walls: Walls, playerPos: Position)
    requires ValidDims(walls.dims)
  {
    && (forall i :: 0 <= i < |ps| ==> BlockClear(walls, ps[i]))
    && (forall i :: 0 <= i < |ps| ==> DistanceSquared(ps[i], playerPos, walls.dims) >= MIN_PLAYER_DISTANCE)
    && (forall i, j :: 0 <= i < j < |ps| ==> DistanceSquared(ps[i], ps[j], walls.dims) >= MIN_FACTORY_DISTANCE)
  }

  /** An acceptable candidate keeps the placed set well spread. */
  lemma AcceptKeepsWellSpread(placed: seq<Position>, c: Position, walls: Walls, playerPos: Position)
    requires ValidDims(walls.dims) && WellSpread(placed, walls, playerPos)
    requires Acceptable(c, placed, walls, playerPos)
    ensures WellSpread(placed + [c], walls, playerPos)
  {
    var next := placed + [c];
    forall i, j | 0 <= i < j < |next|
      ensures DistanceSquared(next[i], next[j], walls.dims) >= MIN_FACTORY_DISTANCE
    {
      if j == |placed| {
        assert DistanceSquared(c, placed[i], walls.dims) >= MIN_FACTORY_DISTANCE;
      }
    }
  }

  /** `r` extends `placed` by candidates only. */
  predicate ExtendsBy(r: seq<Position>, placed: seq<Position>, candidates: seq<Position>) {
    |placed| <= |r| && r[..|placed|] == placed && forall p :: p in r[|placed|..] ==> p in candidates
  }

  lemma ExtendsByStep(r: seq<Position>, placed: seq<Position>, c: Position, candidates: seq<Position>)
    requires |candidates| >= 1 && c == candidates[0]
    requires ExtendsBy(r, placed + [c], candidates[1..])
    ensures ExtendsBy(r, placed, candidates)
  {
    assert r[..|placed| + 1][..|placed|] == r[..|placed|];
    assert r[|placed|..] == [c] + r[|placed| + 1..];
  }

  /**
   * The placement keeps what was placed before, adds only candidates, adds
   * nothing once `count` are placed, and keeps the placed set well spread.
   */
  lemma {:induction false} PlacementsWellSpread(candidates: seq<Position>, count: nat, placed: seq<Position>,
                                               walls: Walls, playerPos: Position)
    requires ValidDims(walls.dims) && WellSpread(placed, walls, playerPos)
    ensures ExtendsBy(Placements(candidates, count, placed, walls, playerPos), placed, candidates)
    ensures |placed| <= count ==> |Placements(candidates, count, placed, walls, playerPos)| <= count
    ensures WellSpread(Placements(candidates, count, placed, walls, playerPos), walls, playerPos)
    decreases |candidates|
  {
    if |placed| >= count || |candidates| == 0 {
      assert placed[..|placed|] == placed;
    } else if Acceptable(candidates[0], placed, walls, playerPos) {
      AcceptKeepsWellSpread(placed, candidates[0], walls, playerPos);
      PlacementsWellSpread(candidates[1..], count, placed + [candidates[0]], walls, playerPos);
      ExtendsByStep(Placements(candidates, count, placed, walls, playerPos), placed, candidates[0], candidates);
    } else {
      PlacementsWellSpread(candidates[1..], count, placed, walls, playerPos);
    }
  }

  /** The inner scan over the placed positions. */
  method ScanPlaced(pos: Position, positions: seq<Position>, dims: Dimensions) returns (far: bool)
    ensures far <==> FarFromAll(pos, positions, dims)
  {
    var k := 0;
    while k < |positions|
      invariant k <= |positions|
      invariant FarFromAll(pos, positions[..k], dims)
    {
      if DistanceSquared(pos, positions[k], dims) < MIN_FACTORY_DISTANCE {
        assert !FarFromAll(pos, positions, dims) by {
          assert DistanceSquared(pos, positions[k], dims) < MIN_FACTORY_DISTANCE;
        }
        return false;
      }
      assert positions[..k + 1] == positions[..k] + [positions[k]];
      k := k + 1;
    }
    assert positions[..k] == positions;
    return true;
  }
}
