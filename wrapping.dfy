/**
 * Wrap-around increment and decrement of an unsigned value bounded by a
 * size (the `SizeWrapping` trait of the video crate, implemented for every
 * unsigned integer type). Values are natural numbers here; the operations
 * never produce a value above the size, so no machine width is involved.
 */
module SizeWrapping {
  import Arithmetic

  /**
   * `x.inc(size)`: the next value, wrapping from `size - 1` (or anything
   * larger) to 0. `size - 1` is evaluated on every call, so a size of 0
   * underflows; the caller must pass a positive size.
   */
  function Inc(x: nat, size: nat): (r: nat)
    requires size >= 1
    ensures r < size
    ensures x < size ==> r == (x + 1) % size
  {
    IncIsMod(x, size);
    if x < size - 1 then x + 1 else 0
  }

  /**
   * `x.dec(size)`: the previous value, wrapping from 0 to `size - 1`.
   * `size - 1` is only evaluated when `x` is 0.
   */
  function Dec(x: nat, size: nat): (r: nat)
    requires x > 0 || size >= 1
    ensures x < size ==> r < size && r == (x + size - 1) % size
    ensures x == 0 ==> r + 1 == size
  {
    DecIsMod(x, size);
    if x > 0 then x - 1 else size - 1
  }

  /** For an in-range value the wrapping step up is the step modulo the size. */
  lemma IncIsMod(x: nat, size: nat)
    ensures x < size ==> (if x < size - 1 then x + 1 else 0) == (x + 1) % size
  {
    if x + 1 < size {
      Arithmetic.ModSmall(x + 1, size);
    } else if x + 1 == size {
      Arithmetic.DivModUnique(x + 1, size, 1, 0);
    }
  }

  /** For an in-range value the wrapping step down is the step modulo the size. */
  lemma DecIsMod(x: nat, size: nat)
    ensures x < size ==> (if x > 0 then x - 1 else size - 1) == (x + size - 1) % size
  {
    if 0 < x < size {
      Arithmetic.DivModUnique(x + size - 1, size, 1, x - 1);
    } else if x == 0 < size {
      Arithmetic.ModSmall(size - 1, size);
    }
  }

  /** The last value wraps to 0 and 0 wraps to the last value. */
  lemma WrapEnds(size: nat)
    requires size >= 1
    ensures Inc(size - 1, size) == 0
    ensures Dec(0, size) == size - 1
  {
  }

  /** `inc` and `dec` undo each other on every in-range value. */
  lemma IncDecInverse(x: nat, size: nat)
    requires x < size
    ensures Dec(Inc(x, size), size) == x
    ensures Inc(Dec(x, size), size) == x
  {
  }
}
