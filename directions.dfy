/**
 * The direction bit mask of the entities module (`dir` constants and
 * `dir::stop_dir`), together with the cancelling-pair stripping that the
 * player and the firing code apply to a held direction.
 */
module Directions {

  /** A direction is a set of up to four bits held in a byte. */
  type Direction = bv8

  const NONE: Direction := 0x00
  const UP: Direction := 0x01
  const DOWN: Direction := 0x02
  const LEFT: Direction := 0x04
  const RIGHT: Direction := 0x08
  const UP_LEFT: Direction := UP | LEFT
  const UP_RIGHT: Direction := UP | RIGHT
  const DOWN_LEFT: Direction := DOWN | LEFT
  const DOWN_RIGHT: Direction := DOWN | RIGHT

  /** The vertical (UP, DOWN) and horizontal (LEFT, RIGHT) parts of a mask. */
  function Vertical(d: Direction): Direction { d & (UP | DOWN) }
  function Horizontal(d: Direction): Direction { d & (LEFT | RIGHT) }

  /** Exactly one of the four cardinal bits. */
  predicate IsCardinal(d: Direction) {
    d == UP || d == DOWN || d == LEFT || d == RIGHT
  }

  /** Exactly one vertical bit, exactly one horizontal bit and nothing else. */
  predicate IsDiagonal(d: Direction) {
    d & 0xF0 == 0
    && Vertical(d) != 0 && Vertical(d) != UP | DOWN
    && Horizontal(d) != 0 && Horizontal(d) != LEFT | RIGHT
  }

  /** One of the eight directions a bullet can travel in. */
  predicate IsNamed(d: Direction) {
    IsCardinal(d) || IsDiagonal(d)
  }

  /**
   * `dir::stop_dir`: the single direction a player keeps facing once all
   * keys are released. A cardinal direction stays, a diagonal keeps its
   * horizontal part, and every other mask (none, an opposing pair, three or
   * four bits, stray high bits) falls back to UP.
   */
  function StopDir(d: Direction): (r: Direction)
    ensures IsCardinal(r)
    ensures IsCardinal(d) ==> r == d
    ensures IsDiagonal(d) ==> r == Horizontal(d)
    ensures !IsNamed(d) ==> r == UP
  {
    if d == UP || d == DOWN || d == LEFT || d == RIGHT then d
    else if d == UP_LEFT || d == DOWN_LEFT then LEFT
    else if d == UP_RIGHT || d == DOWN_RIGHT then RIGHT
    else UP
  }

  /** Facing is stable: the stop direction of a stop direction is itself. */
  lemma StopDirIdempotent(d: Direction)
    ensures StopDir(StopDir(d)) == StopDir(d)
  {
  }

  /**
   * `effective_dir` / `effective_firing_dir`: UP and DOWN held together
   * cancel, and so do LEFT and RIGHT held together; the other bits pass
   * through.
   */
  function EffectiveDir(d: Direction): (r: Direction)
    ensures r & !d == 0
    ensures Vertical(r) == if Vertical(d) == UP | DOWN then 0 else Vertical(d)
    ensures Horizontal(r) == if Horizontal(d) == LEFT | RIGHT then 0 else Horizontal(d)
    ensures r & 0xF0 == d & 0xF0
  {
    var v := if d & (UP | DOWN) == UP | DOWN then d & !(UP | DOWN) else d;
    if v & (LEFT | RIGHT) == LEFT | RIGHT then v & !(LEFT | RIGHT) else v
  }

  /** The effective direction never holds an opposing pair. */
  lemma EffectiveDirNoOpposites(d: Direction)
    ensures Vertical(EffectiveDir(d)) != UP | DOWN
    ensures Horizontal(EffectiveDir(d)) != LEFT | RIGHT
  {
  }

  /** Stripping twice strips nothing more. */
  lemma EffectiveDirIdempotent(d: Direction)
    ensures EffectiveDir(EffectiveDir(d)) == EffectiveDir(d)
  {
  }

  /**
   * The four cardinal constants are distinct single bits, and each named
   * diagonal is the union of one vertical and one horizontal bit.
   */
  lemma CardinalBits()
    ensures UP & DOWN == 0 && UP & LEFT == 0 && UP & RIGHT == 0
    ensures DOWN & LEFT == 0 && DOWN & RIGHT == 0 && LEFT & RIGHT == 0
    ensures forall d: Direction :: IsCardinal(d) ==> d != 0 && d & (d - 1) == 0
    ensures IsDiagonal(UP_LEFT) && IsDiagonal(UP_RIGHT)
    ensures IsDiagonal(DOWN_LEFT) && IsDiagonal(DOWN_RIGHT)
    ensures forall d: Direction :: IsDiagonal(d) <==> d in {UP_LEFT, UP_RIGHT, DOWN_LEFT, DOWN_RIGHT}
  {
  }
}
