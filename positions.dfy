/**
 * Cells of the toroidal maze grid (`Position` of the entities module and
 * the `Dimensions` it is measured against): single-step neighbours,
 * multi-step moves, moving along a direction mask, the squared distance on
 * the torus and the choice of the neighbour nearest to a target.
 *
 * Rows and columns are `u16` in the source. The neighbour operations stay
 * below the dimension, so only the squared distance needs the width: its
 * `as u16` cast keeps the low 16 bits.
 */
module Positions {
  import SizeWrapping
  import Arithmetic
  import opened Directions

  datatype Dimensions = Dimensions(rows: nat, cols: nat)

  datatype Position = Position(row: nat, col: nat)

  /** Every dimension the game passes in is at least one cell. */
  predicate ValidDims(dims: Dimensions) {
    dims.rows >= 1 && dims.cols >= 1
  }

  predicate InRange(p: Position, dims: Dimensions) {
    p.row < dims.rows && p.col < dims.cols
  }

  const U16_MODULUS: nat := 0x1_0000

  // ---------------------------------------------------------------- neighbours

  /** `left`: one column to the left, wrapping from column 0 to the last. */
  function Left(p: Position, dims: Dimensions): (q: Position)
    requires p.col > 0 || dims.cols >= 1
    ensures q.row == p.row
    ensures p.col < dims.cols ==> q.col < dims.cols && q.col == (p.col + dims.cols - 1) % dims.cols
  {
    SizeWrapping.DecIsMod(p.col, dims.cols);
    Position(p.row, if p.col == 0 then dims.cols - 1 else p.col - 1)
  }

  /** `right`: one column to the right, wrapping from the last column to 0. */
  function Right(p: Position, dims: Dimensions): (q: Position)
    requires dims.cols >= 1
    ensures q.row == p.row
    ensures q.col < dims.cols
    ensures p.col < dims.cols ==> q.col == (p.col + 1) % dims.cols
  {
    SizeWrapping.IncIsMod(p.col, dims.cols);
    Position(p.row, if p.col < dims.cols - 1 then p.col + 1 else 0)
  }

  /** `up`: one row up, wrapping from row 0 to the last. */
  function Up(p: Position, dims: Dimensions): (q: Position)
    requires p.row > 0 || dims.rows >= 1
    ensures q.col == p.col
    ensures p.row < dims.rows ==> q.row < dims.rows && q.row == (p.row + dims.rows - 1) % dims.rows
  {
    SizeWrapping.DecIsMod(p.row, dims.rows);
    Position(if p.row > 0 then p.row - 1 else dims.rows - 1, p.col)
  }

  /** `down`: one row down, wrapping from the last row to 0. */
  function Down(p: Position, dims: Dimensions): (q: Position)
    requires dims.rows >= 1
    ensures q.col == p.col
    ensures q.row < dims.rows
    ensures p.row < dims.rows ==> q.row == (p.row + 1) % dims.rows
  {
    SizeWrapping.IncIsMod(p.row, dims.rows);
    Position(if p.row < dims.rows - 1 then p.row + 1 else 0, p.col)
  }

  /** The neighbours are the wrapping counters of the video crate. */
  lemma NeighboursAreWrapping(p: Position, dims: Dimensions)
    requires ValidDims(dims)
    ensures Left(p, dims).col == SizeWrapping.Dec(p.col, dims.cols)
    ensures Right(p, dims).col == SizeWrapping.Inc(p.col, dims.cols)
    ensures Up(p, dims).row == SizeWrapping.Dec(p.row, dims.rows)
    ensures Down(p, dims).row == SizeWrapping.Inc(p.row, dims.rows)
  {
  }

  /** Opposite neighbours undo each other on every in-range cell. */
  lemma NeighboursInverse(p: Position, dims: Dimensions)
    requires ValidDims(dims) && InRange(p, dims)
    ensures Right(Left(p, dims), dims) == p && Left(Right(p, dims), dims) == p
    ensures Down(Up(p, dims), dims) == p && Up(Down(p, dims), dims) == p
  {
  }

  // ---------------------------------------------------------------- multi-step moves

  /** `n` applications of `Left`. */
  function LeftBy(p: Position, n: nat, dims: Dimensions): Position
    requires ValidDims(dims)
  {
    if n == 0 then p else Left(LeftBy(p, n - 1, dims), dims)
  }

  /** `n` applications of `Right`. */
  function RightBy(p: Position, n: nat, dims: Dimensions): Position
    requires ValidDims(dims)
  {
    if n == 0 then p else Right(RightBy(p, n - 1, dims), dims)
  }

  /** `n` applications of `Up`. */
  function UpBy(p: Position, n: nat, dims: Dimensions): Position
    requires ValidDims(dims)
  {
    if n == 0 then p else Up(UpBy(p, n - 1, dims), dims)
  }

  /** `n` applications of `Down`. */
  function DownBy(p: Position, n: nat, dims: Dimensions): Position
    requires ValidDims(dims)
  {
    if n == 0 then p else Down(DownBy(p, n - 1, dims), dims)
  }

  /** `move_left`: one wrapping step per iteration, `steps` iterations. */
  method MoveLeft(p: Position, steps: nat, dims: Dimensions) returns (q: Position)
    requires ValidDims(dims)
    ensures q == LeftBy(p, steps, dims)
  {
    q := p;
    var s := steps;
    while s > 0
      invariant 0 <= s <= steps
      invariant q == LeftBy(p, steps - s, dims)
    {
      q := Position(q.row, if q.col == 0 then dims.cols - 1 else q.col - 1);
      s := s - 1;
    }
  }

  /** `move_right`. */
  method MoveRight(p: Position, steps: nat, dims: Dimensions) returns (q: Position)
    requires ValidDims(dims)
    ensures q == RightBy(p, steps, dims)
  {
    q := p;
    var s := steps;
    while s > 0
      invariant 0 <= s <= steps
      invariant q == RightBy(p, steps - s, dims)
    {
      q := Position(q.row, if q.col < dims.cols - 1 then q.col + 1 else 0);
      s := s - 1;
    }
  }

  /** `move_up`. */
  method MoveUp(p: Position, steps: nat, dims: Dimensions) returns (q: Position)
    requires ValidDims(dims)
    ensures q == UpBy(p, steps, dims)
  {
    q := p;
    var s := steps;
    while s > 0
      invariant 0 <= s <= steps
      invariant q == UpBy(p, steps - s, dims)
    {
      q := Position(if q.row > 0 then q.row - 1 else dims.rows - 1, q.col);
      s := s - 1;
    }
  }

  /** `move_down`. */
  method MoveDown(p: Position, steps: nat, dims: Dimensions) returns (q: Position)
    requires ValidDims(dims)
    ensures q == DownBy(p, steps, dims)
  {
    q := p;
    var s := steps;
    while s > 0
      invariant 0 <= s <= steps
      invariant q == DownBy(p, steps - s, dims)
    {
      q := Position(if q.row < dims.rows - 1 then q.row + 1 else 0, q.col);
      s := s - 1;
    }
  }

  /** Horizontal moves keep the row and move the column by `n` modulo the width. */
  lemma HorizontalMoves(p: Position, n: nat, dims: Dimensions)
    requires ValidDims(dims) && InRange(p, dims)
    ensures LeftBy(p, n, dims).row == p.row && RightBy(p, n, dims).row == p.row
    ensures LeftBy(p, n, dims).col == (p.col - n) % dims.cols
    ensures RightBy(p, n, dims).col == (p.col + n) % dims.cols
  {
    LeftMoves(p, n, dims);
    RightMoves(p, n, dims);
  }

  lemma {:induction false} LeftMoves(p: Position, n: nat, dims: Dimensions)
    requires ValidDims(dims) && InRange(p, dims)
    ensures LeftBy(p, n, dims).row == p.row
    ensures LeftBy(p, n, dims).col == (p.col - n) % dims.cols
  {
    if n == 0 {
      Arithmetic.ModSmall(p.col, dims.cols);
    } else {
      LeftMoves(p, n - 1, dims);
      StepDown(p.col - n + 1, dims.cols);
    }
  }

  lemma {:induction false} RightMoves(p: Position, n: nat, dims: Dimensions)
    requires ValidDims(dims) && InRange(p, dims)
    ensures RightBy(p, n, dims).row == p.row
    ensures RightBy(p, n, dims).col == (p.col + n) % dims.cols
  {
    if n == 0 {
      Arithmetic.ModSmall(p.col, dims.cols);
    } else {
      RightMoves(p, n - 1, dims);
      Arithmetic.ModAddLeft(p.col + n - 1, 1, dims.cols);
    }
  }

  /** Vertical moves keep the column and move the row by `n` modulo the height. */
  lemma VerticalMoves(p: Position, n: nat, dims: Dimensions)
    requires ValidDims(dims) && InRange(p, dims)
    ensures UpBy(p, n, dims).col == p.col && DownBy(p, n, dims).col == p.col
    ensures UpBy(p, n, dims).row == (p.row - n) % dims.rows
    ensures DownBy(p, n, dims).row == (p.row + n) % dims.rows
  {
    UpMoves(p, n, dims);
    DownMoves(p, n, dims);
  }

  lemma {:induction false} UpMoves(p: Position, n: nat, dims: Dimensions)
    requires ValidDims(dims) && InRange(p, dims)
    ensures UpBy(p, n, dims).col == p.col
    ensures UpBy(p, n, dims).row == (p.row - n) % dims.rows
  {
    if n == 0 {
      Arithmetic.ModSmall(p.row, dims.rows);
    } else {
      UpMoves(p, n - 1, dims);
      StepDown(p.row - n + 1, dims.rows);
    }
  }

  lemma {:induction false} DownMoves(p: Position, n: nat, dims: Dimensions)
    requires ValidDims(dims) && InRange(p, dims)
    ensures DownBy(p, n, dims).col == p.col
    ensures DownBy(p, n, dims).row == (p.row + n) % dims.rows
  {
    if n == 0 {
      Arithmetic.ModSmall(p.row, dims.rows);
    } else {
      DownMoves(p, n - 1, dims);
      Arithmetic.ModAddLeft(p.row + n - 1, 1, dims.rows);
    }
  }

  /** One wrapping step down from `x` reduced modulo `m` is `x - 1` reduced modulo `m`. */
  lemma StepDown(x: int, m: nat)
    requires m >= 1
    ensures (x % m + m - 1) % m == (x - 1) % m
  {
    Arithmetic.ModAddLeft(x, m - 1, m);
    Arithmetic.ModPeriodic(x - 1, 1, m);
  }

  /** Moving `n` cells one way and then `n` cells back returns to the start. */
  lemma MovesRestore(p: Position, n: nat, dims: Dimensions)
    requires ValidDims(dims) && InRange(p, dims)
    ensures RightBy(LeftBy(p, n, dims), n, dims) == p
    ensures LeftBy(RightBy(p, n, dims), n, dims) == p
    ensures DownBy(UpBy(p, n, dims), n, dims) == p
    ensures UpBy(DownBy(p, n, dims), n, dims) == p
  {
    HorizontalRestore(p, n, dims);
    VerticalRestore(p, n, dims);
  }

  lemma HorizontalRestore(p: Position, n: nat, dims: Dimensions)
    requires ValidDims(dims) && InRange(p, dims)
    ensures RightBy(LeftBy(p, n, dims), n, dims) == p
    ensures LeftBy(RightBy(p, n, dims), n, dims) == p
  {
    var m := dims.cols;
    assert RightBy(LeftBy(p, n, dims), n, dims) == p by {
      LeftMoves(p, n, dims);
      RightMoves(LeftBy(p, n, dims), n, dims);
      Undo(p.col, -(n as int), m);
    }
    assert LeftBy(RightBy(p, n, dims), n, dims) == p by {
      RightMoves(p, n, dims);
      LeftMoves(RightBy(p, n, dims), n, dims);
      Undo(p.col, n, m);
    }
  }

  lemma VerticalRestore(p: Position, n: nat, dims: Dimensions)
    requires ValidDims(dims) && InRange(p, dims)
    ensures DownBy(UpBy(p, n, dims), n, dims) == p
    ensures UpBy(DownBy(p, n, dims), n, dims) == p
  {
    var m := dims.rows;
    assert DownBy(UpBy(p, n, dims), n, dims) == p by {
      UpMoves(p, n, dims);
      DownMoves(UpBy(p, n, dims), n, dims);
      Undo(p.row, -(n as int), m);
    }
    assert UpBy(DownBy(p, n, dims), n, dims) == p by {
      DownMoves(p, n, dims);
      UpMoves(DownBy(p, n, dims), n, dims);
      Undo(p.row, n, m);
    }
  }

  /** Moving an in-range `x` by `d` modulo `m` and then back by `d` gives `x`. */
  lemma Undo(x: nat, d: int, m: nat)
    requires x < m
    ensures ((x + d) % m - d) % m == x
  {
    Arithmetic.ModAddLeft(x + d, -d, m);
    Arithmetic.ModSmall(x, m);
  }

  // ---------------------------------------------------------------- advance

  /**
   * Position reached by `advance(dir, dims)`: one step up if the UP bit is
   * set, then one down if DOWN is set, then one left, then one right.
   */
  function Advanced(p: Position, d: Direction, dims: Dimensions): Position
    requires ValidDims(dims)
  {
    var p1 := if d & UP != 0 then Up(p, dims) else p;
    var p2 := if d & DOWN != 0 then Down(p1, dims) else p1;
    var p3 := if d & LEFT != 0 then Left(p2, dims) else p2;
    if d & RIGHT != 0 then Right(p3, dims) else p3
  }

  /** `advance`: the moves of the set bits, one step each. */
  method Advance(p: Position, d: Direction, dims: Dimensions) returns (q: Position)
    requires ValidDims(dims)
    ensures q == Advanced(p, d, dims)
  {
    q := p;
    if d & UP != 0 {
      q := MoveUp(q, 1, dims);
    }
    if d & DOWN != 0 {
      q := MoveDown(q, 1, dims);
    }
    if d & LEFT != 0 {
      q := MoveLeft(q, 1, dims);
    }
    if d & RIGHT != 0 {
      q := MoveRight(q, 1, dims);
    }
  }

  /** The bits with UP and DOWN exchanged and LEFT and RIGHT exchanged. */
  function Opposite(d: Direction): (r: Direction)
    ensures (r & UP != 0) == (d & DOWN != 0) && (r & DOWN != 0) == (d & UP != 0)
    ensures (r & LEFT != 0) == (d & RIGHT != 0) && (r & RIGHT != 0) == (d & LEFT != 0)
  {
    ((d & UP) << 1) | ((d & DOWN) >> 1) | ((d & LEFT) << 1) | ((d & RIGHT) >> 1)
  }

  /**
   * Rows move only for vertical bits and columns only for horizontal bits;
   * no bits, or an opposing pair, leave that coordinate where it was.
   */
  lemma AdvanceAxes(p: Position, d: Direction, dims: Dimensions)
    requires ValidDims(dims) && InRange(p, dims)
    ensures InRange(Advanced(p, d, dims), dims)
    ensures Advanced(p, d, dims).row == Advanced(p, Vertical(d), dims).row
    ensures Advanced(p, d, dims).col == Advanced(p, Horizontal(d), dims).col
    ensures Vertical(d) == 0 || Vertical(d) == UP | DOWN ==> Advanced(p, d, dims).row == p.row
    ensures Horizontal(d) == 0 || Horizontal(d) == LEFT | RIGHT ==> Advanced(p, d, dims).col == p.col
    ensures Advanced(p, NONE, dims) == p
  {
    NeighboursInverse(p, dims);
    NeighboursInverse(Position(p.row, Left(p, dims).col), dims);
  }

  /** Torus closure: advancing along the opposite bits returns to the start. */
  lemma AdvanceOpposite(p: Position, d: Direction, dims: Dimensions)
    requires ValidDims(dims) && InRange(p, dims)
    ensures Advanced(Advanced(p, d, dims), Opposite(d), dims) == p
  {
    var q := Advanced(p, d, dims);
    var o := Opposite(d);
    AdvanceAxes(p, d, dims);
    NeighboursInverse(p, dims);
    NeighboursInverse(Up(p, dims), dims);
    NeighboursInverse(Down(p, dims), dims);
    NeighboursInverse(Position(q.row, p.col), dims);
    NeighboursInverse(Position(q.row, Left(p, dims).col), dims);
    NeighboursInverse(Position(q.row, Right(p, dims).col), dims);
  }

  // ---------------------------------------------------------------- distance

  function Abs(x: int): nat { if x < 0 then -x else x }

  function Min(a: int, b: int): int { if a <= b then a else b }

  /** The shorter way round one axis of the torus: min(|a - b|, size - |a - b|). */
  function AxisGap(a: nat, b: nat, size: nat): int {
    Min(Abs(a - b), size - Abs(a - b))
  }

  /**
   * `distance_squared_to`: the squared torus distance, computed in 32-bit
   * signed arithmetic and cast to `u16`. Both the 32-bit wrap and the cast
   * keep the value modulo 2^16, so the result is the exact sum of squares
   * reduced modulo 2^16.
   */
  function DistanceSquaredTo(p: Position, q: Position, dims: Dimensions): (r: nat)
    ensures r < U16_MODULUS
  {
    var mx := AxisGap(p.col, q.col, dims.cols);
    var my := AxisGap(p.row, q.row, dims.rows);
    (mx * mx + my * my) % U16_MODULUS
  }

  /** The distance does not depend on which end it is measured from. */
  lemma DistanceSymmetric(p: Position, q: Position, dims: Dimensions)
    ensures DistanceSquaredTo(p, q, dims) == DistanceSquaredTo(q, p, dims)
  {
  }

  /** A cell is at distance 0 from itself. */
  lemma DistanceToSelf(p: Position, dims: Dimensions)
    ensures DistanceSquaredTo(p, p, dims) == 0
  {
  }

  /** For in-range coordinates each axis term is between 0 and half the size. */
  lemma AxisGapBounds(a: nat, b: nat, size: nat)
    requires a < size && b < size
    ensures 0 <= AxisGap(a, b, size) <= size / 2
    ensures AxisGap(a, b, size) == 0 <==> a == b
  {
  }

  /**
   * On grids of at most 362 cells a side the 16-bit cast loses nothing: the
   * result is the exact sum of squared axis gaps, and it is 0 only for
   * equal cells.
   */
  lemma DistanceExact(p: Position, q: Position, dims: Dimensions)
    requires InRange(p, dims) && InRange(q, dims)
    requires dims.rows <= 362 && dims.cols <= 362
    ensures DistanceSquaredTo(p, q, dims)
      == AxisGap(p.col, q.col, dims.cols) * AxisGap(p.col, q.col, dims.cols)
       + AxisGap(p.row, q.row, dims.rows) * AxisGap(p.row, q.row, dims.rows)
    ensures DistanceSquaredTo(p, q, dims) == 0 <==> p == q
  {
    var mx := AxisGap(p.col, q.col, dims.cols);
    var my := AxisGap(p.row, q.row, dims.rows);
    AxisGapBounds(p.col, q.col, dims.cols);
    AxisGapBounds(p.row, q.row, dims.rows);
    SquareBound(mx, 181);
    SquareBound(my, 181);
    if mx != 0 { SquarePositive(mx); }
    if my != 0 { SquarePositive(my); }
  }

  lemma SquareBound(x: int, b: nat)
    requires 0 <= x <= b
    ensures 0 <= x * x <= b * b
  {
  }

  lemma SquarePositive(x: int)
    requires x > 0
    ensures x * x > 0
  {
  }

  // ---------------------------------------------------------------- direction_to

  /** Squared distance from the neighbour in cardinal direction `d` to `target`. */
  function NeighbourDistance(p: Position, target: Position, d: Direction, dims: Dimensions): nat
    requires ValidDims(dims) && IsCardinal(d)
  {
    var n := if d == UP then Up(p, dims)
             else if d == DOWN then Down(p, dims)
             else if d == LEFT then Left(p, dims)
             else Right(p, dims);
    DistanceSquaredTo(n, target, dims)
  }

  /** Position of a cardinal direction in the order UP, DOWN, LEFT, RIGHT. */
  function Rank(d: Direction): nat
    requires IsCardinal(d)
  {
    if d == UP then 0 else if d == DOWN then 1 else if d == LEFT then 2 else 3
  }

  /**
   * `direction_to`: the cardinal step whose neighbour is nearest to the
   * target. Among equally near neighbours the one latest in the order UP,
   * DOWN, LEFT, RIGHT wins.
   */
  function DirectionTo(p: Position, target: Position, dims: Dimensions): (r: Direction)
    requires ValidDims(dims)
    ensures IsCardinal(r)
    ensures NeighbourDistance(p, target, r, dims) <= NeighbourDistance(p, target, UP, dims)
    ensures NeighbourDistance(p, target, r, dims) <= NeighbourDistance(p, target, DOWN, dims)
    ensures NeighbourDistance(p, target, r, dims) <= NeighbourDistance(p, target, LEFT, dims)
    ensures NeighbourDistance(p, target, r, dims) <= NeighbourDistance(p, target, RIGHT, dims)
    ensures forall e: Direction :: IsCardinal(e) && Rank(e) > Rank(r) ==>
              NeighbourDistance(p, target, e, dims) > NeighbourDistance(p, target, r, dims)
  {
    var distUp := DistanceSquaredTo(Up(p, dims), target, dims);
    var distDown := DistanceSquaredTo(Down(p, dims), target, dims);
    var distLeft := DistanceSquaredTo(Left(p, dims), target, dims);
    var distRight := DistanceSquaredTo(Right(p, dims), target, dims);
    if distUp < distDown && distUp < distLeft && distUp < distRight then UP
    else if distDown < distLeft && distDown < distRight then DOWN
    else if distLeft < distRight then LEFT
    else RIGHT
  }
}
