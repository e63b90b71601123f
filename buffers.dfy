/**
 * The character buffer of the video crate (video/src/buffer.rs): a
 * rows×cols grid stored row by row as two byte vectors, one of
 * characters and one of attributes. Reads outside the grid give 0 and
 * writes outside it are ignored; attributes written with `set_attr` are
 * masked to their two defined bits.
 *
 * `Grid` is the value a buffer holds; the methods of `Buffer` are stated
 * against the functions on `Grid`, and the lemmas below relate those.
 */
module Buffers {
  import Arithmetic

  const ATTR_NONE: bv8 := 0x00
  const ATTR_REVERSE: bv8 := 0x01
  const ATTR_DIM: bv8 := 0x02
  const ATTR_MASK: bv8 := 0x03
  /** The number of attribute combinations the mask allows. */
  const ATTR_COMBOS: nat := 4

  const SPACE: bv8 := 0x20

  datatype Grid = Grid(rows: nat, cols: nat, characters: seq<bv8>, attributes: seq<bv8>)

  /** Both vectors hold one byte per cell. */
  predicate WellFormed(g: Grid) {
    |g.characters| == g.rows * g.cols && |g.attributes| == g.rows * g.cols
  }

  predicate InBounds(g: Grid, row: nat, col: nat) {
    row < g.rows && col < g.cols
  }

  /** Where the bytes of cell (row, col) sit in the vectors. */
  function Index(row: nat, col: nat, cols: nat): nat {
    row * cols + col
  }

  /** A cell inside the grid has its byte inside the vectors. */
  lemma IndexInRange(row: nat, col: nat, rows: nat, cols: nat)
    requires row < rows && col < cols
    ensures Index(row, col, cols) < rows * cols
  {
    Arithmetic.MulNonneg(rows - row - 1, cols);
    assert rows * cols == row * cols + cols + (rows - row - 1) * cols;
  }

  /** Distinct cells of a row-major grid have distinct bytes. */
  lemma IndexInjective(r1: nat, c1: nat, r2: nat, c2: nat, cols: nat)
    requires c1 < cols && c2 < cols && Index(r1, c1, cols) == Index(r2, c2, cols)
    ensures r1 == r2 && c1 == c2
  {
    Arithmetic.DivModUnique(r1 * cols + c1, cols, r1, c1);
    Arithmetic.DivModUnique(r2 * cols + c2, cols, r2, c2);
  }

  /** `get_char`: the character of a cell, or 0 outside the grid. */
  function CharAt(g: Grid, row: nat, col: nat): (ch: bv8)
    requires WellFormed(g)
    ensures !InBounds(g, row, col) ==> ch == 0
  {
    if InBounds(g, row, col) then
      IndexInRange(row, col, g.rows, g.cols);
      g.characters[Index(row, col, g.cols)]
    else 0
  }

  /** `get_attr`: the attribute of a cell, or 0 outside the grid. */
  function AttrAt(g: Grid, row: nat, col: nat): (a: bv8)
    requires WellFormed(g)
    ensures !InBounds(g, row, col) ==> a == 0
  {
    if InBounds(g, row, col) then
      IndexInRange(row, col, g.rows, g.cols);
      g.attributes[Index(row, col, g.cols)]
    else 0
  }

  /** `get_chattr`: both bytes of a cell, or (0, 0) outside the grid. */
  function ChattrAt(g: Grid, row: nat, col: nat): (r: (bv8, bv8))
    requires WellFormed(g)
    ensures r == (CharAt(g, row, col), AttrAt(g, row, col))
  {
    if InBounds(g, row, col) then
      IndexInRange(row, col, g.rows, g.cols);
      (g.characters[Index(row, col, g.cols)], g.attributes[Index(row, col, g.cols)])
    else (0, 0)
  }

  /** The grid after `set_char`. */
  function WithChar(g: Grid, row: nat, col: nat, ch: bv8): (h: Grid)
    requires WellFormed(g)
    ensures WellFormed(h) && h.rows == g.rows && h.cols == g.cols && h.attributes == g.attributes
    ensures !InBounds(g, row, col) ==> h == g
  {
    if InBounds(g, row, col) then
      IndexInRange(row, col, g.rows, g.cols);
      g.(characters := g.characters[Index(row, col, g.cols) := ch])
    else g
  }

  /** The grid after `set_attr`, which keeps only the attribute bits. */
  function WithAttr(g: Grid, row: nat, col: nat, a: bv8): (h: Grid)
    requires WellFormed(g)
    ensures WellFormed(h) && h.rows == g.rows && h.cols == g.cols && h.characters == g.characters
    ensures !InBounds(g, row, col) ==> h == g
  {
    if InBounds(g, row, col) then
      IndexInRange(row, col, g.rows, g.cols);
      g.(attributes := g.attributes[Index(row, col, g.cols) := a & ATTR_MASK])
    else g
  }

  /** The grid after `set_chattr`, which stores the attribute unmasked. */
  function WithChattr(g: Grid, row: nat, col: nat, ch: bv8, a: bv8): (h: Grid)
    requires WellFormed(g)
    ensures WellFormed(h) && h.rows == g.rows && h.cols == g.cols
    ensures !InBounds(g, row, col) ==> h == g
  {
    if InBounds(g, row, col) then
      IndexInRange(row, col, g.rows, g.cols);
      var i := Index(row, col, g.cols);
      g.(characters := g.characters[i := ch], attributes := g.attributes[i := a])
    else g
  }

  /** The byte `print` stores for a character: the low eight bits of its code. */
  function LowByte(c: char): bv8 {
    ((c as int) % 256) as bv8
  }

  /** The grid after `print`: character k goes to column `col + k` of `row`. */
  function Printed(g: Grid, row: nat, col: nat, attr: bv8, s: seq<char>): (h: Grid)
    requires WellFormed(g)
    ensures WellFormed(h) && h.rows == g.rows && h.cols == g.cols
    decreases |s|
  {
    if s == [] then g
    else Printed(WithAttr(WithChar(g, row, col, LowByte(s[0])), row, col, attr), row, col + 1, attr, s[1..])
  }

  /**
   * The source cell `copy_buffer` reads `k` steps after `start`: the
   * start itself, which is used unreduced, and after that the start plus
   * `k` modulo the destination's size `n`.
   */
  function SourceIndex(start: nat, k: nat, n: nat): nat
    requires n >= 1
  {
    if k == 0 then start else (start + k) % n
  }

  lemma SourceIndexStep(start: nat, k: nat, n: nat)
    requires n >= 1
    ensures SourceIndex(start, k + 1, n) == (SourceIndex(start, k, n) + 1) % n
  {
    if k > 0 {
      Arithmetic.ModAddLeft(start + k, 1, n);
    }
  }

  // ---------------------------------------------------------------- cell lemmas

  /** Two different cells of the grid never share a byte. */
  lemma DistinctCells(g: Grid, row: nat, col: nat, r: nat, c: nat)
    ensures InBounds(g, row, col) && InBounds(g, r, c) && (r != row || c != col) ==>
      Index(r, c, g.cols) != Index(row, col, g.cols)
  {
    if InBounds(g, row, col) && InBounds(g, r, c) && Index(r, c, g.cols) == Index(row, col, g.cols) {
      IndexInjective(r, c, row, col, g.cols);
    }
  }

  /** `set_char` then `get_char`: the written cell reads back, every other cell is unchanged. */
  lemma CharAtWithChar(g: Grid, row: nat, col: nat, ch: bv8, r: nat, c: nat)
    requires WellFormed(g)
    ensures CharAt(WithChar(g, row, col, ch), r, c) ==
      if InBounds(g, row, col) && r == row && c == col then ch else CharAt(g, r, c)
    ensures AttrAt(WithChar(g, row, col, ch), r, c) == AttrAt(g, r, c)
  {
    if InBounds(g, row, col) && InBounds(g, r, c) {
      var i, j := Index(row, col, g.cols), Index(r, c, g.cols);
      IndexInRange(row, col, g.rows, g.cols);
      IndexInRange(r, c, g.rows, g.cols);
      DistinctCells(g, row, col, r, c);
      var h := WithChar(g, row, col, ch);
      assert h.characters == g.characters[i := ch];
      assert CharAt(h, r, c) == h.characters[j];
    }
  }

  /** `set_attr` then `get_attr`: the written cell reads back masked, every other cell is unchanged. */
  lemma AttrAtWithAttr(g: Grid, row: nat, col: nat, a: bv8, r: nat, c: nat)
    requires WellFormed(g)
    ensures AttrAt(WithAttr(g, row, col, a), r, c) ==
      if InBounds(g, row, col) && r == row && c == col then a & ATTR_MASK else AttrAt(g, r, c)
    ensures CharAt(WithAttr(g, row, col, a), r, c) == CharAt(g, r, c)
  {
    if InBounds(g, row, col) && InBounds(g, r, c) {
      var i, j := Index(row, col, g.cols), Index(r, c, g.cols);
      IndexInRange(row, col, g.rows, g.cols);
      IndexInRange(r, c, g.rows, g.cols);
      DistinctCells(g, row, col, r, c);
      var h := WithAttr(g, row, col, a);
      assert h.attributes == g.attributes[i := a & ATTR_MASK];
      assert AttrAt(h, r, c) == h.attributes[j];
    }
  }

  /** Whatever is passed to `set_attr`, the attribute read back is at most 3. */
  lemma SetAttrMasks(g: Grid, row: nat, col: nat, a: bv8)
    requires WellFormed(g)
    ensures AttrAt(WithAttr(g, row, col, a), row, col) <= ATTR_MASK
  {
    AttrAtWithAttr(g, row, col, a, row, col);
    assert a & ATTR_MASK <= ATTR_MASK;
  }

  /** `set_chattr` then `get_chattr`: both bytes read back, the attribute unmasked. */
  lemma ChattrRoundTrip(g: Grid, row: nat, col: nat, ch: bv8, a: bv8, r: nat, c: nat)
    requires WellFormed(g)
    ensures ChattrAt(WithChattr(g, row, col, ch, a), r, c) ==
      if InBounds(g, row, col) && r == row && c == col then (ch, a) else ChattrAt(g, r, c)
  {
    if InBounds(g, row, col) && InBounds(g, r, c) {
      var i, j := Index(row, col, g.cols), Index(r, c, g.cols);
      IndexInRange(row, col, g.rows, g.cols);
      IndexInRange(r, c, g.rows, g.cols);
      DistinctCells(g, row, col, r, c);
      var h := WithChattr(g, row, col, ch, a);
      assert h.characters == g.characters[i := ch] && h.attributes == g.attributes[i := a];
      assert ChattrAt(h, r, c) == (h.characters[j], h.attributes[j]);
    }
  }

  /**
   * `print` writes: the k-th character's low byte and the masked
   * attribute land on column `col + k` of `row` when that cell exists.
   */
  lemma {:induction false} PrintWrites(g: Grid, row: nat, col: nat, attr: bv8, s: seq<char>, k: nat)
    requires WellFormed(g) && k < |s| && InBounds(g, row, col + k)
    ensures CharAt(Printed(g, row, col, attr, s), row, col + k) == LowByte(s[k])
    ensures AttrAt(Printed(g, row, col, attr, s), row, col + k) == attr & ATTR_MASK
    decreases |s|
  {
    var g1 := WithChar(g, row, col, LowByte(s[0]));
    var g2 := WithAttr(g1, row, col, attr);
    assert Printed(g, row, col, attr, s) == Printed(g2, row, col + 1, attr, s[1..]);
    if k == 0 {
      PrintKeeps(g2, row, col + 1, attr, s[1..], row, col);
      CharAtWithChar(g, row, col, LowByte(s[0]), row, col);
      AttrAtWithAttr(g1, row, col, attr, row, col);
    } else {
      PrintWrites(g2, row, col + 1, attr, s[1..], k - 1);
      assert s[1..][k - 1] == s[k];
    }
  }

  /**
   * `print` changes nothing else: a cell of another row, left of `col`, or
   * at or past `col + |s|` keeps both its bytes.
   */
  lemma {:induction false} PrintKeeps(g: Grid, row: nat, col: nat, attr: bv8, s: seq<char>, r: nat, c: nat)
    requires WellFormed(g) && !(r == row && col <= c < col + |s|)
    ensures CharAt(Printed(g, row, col, attr, s), r, c) == CharAt(g, r, c)
    ensures AttrAt(Printed(g, row, col, attr, s), r, c) == AttrAt(g, r, c)
    decreases |s|
  {
    if s != [] {
      var g1 := WithChar(g, row, col, LowByte(s[0]));
      var g2 := WithAttr(g1, row, col, attr);
      assert Printed(g, row, col, attr, s) == Printed(g2, row, col + 1, attr, s[1..]);
      PrintKeeps(g2, row, col + 1, attr, s[1..], r, c);
      CharAtWithChar(g, row, col, LowByte(s[0]), r, c);
      AttrAtWithAttr(g1, row, col, attr, r, c);
    }
  }

  // ---------------------------------------------------------------- the mutable buffer

  class Buffer {
    var rows: nat
    var cols: nat
    var characters: seq<bv8>
    var attributes: seq<bv8>

    function Value(): Grid
      reads this
    {
      Grid(rows, cols, characters, attributes)
    }

    predicate Valid()
      reads this
    {
      WellFormed(Value())
    }

    /** `new`: a grid of blanks with no attributes. */
    constructor (rows: nat, cols: nat)
      ensures Valid() && this.rows == rows && this.cols == cols
      ensures forall i :: 0 <= i < |characters| ==> characters[i] == SPACE
      ensures forall i :: 0 <= i < |attributes| ==> attributes[i] == ATTR_NONE
    {
      this.rows, this.cols := rows, cols;
      characters := seq(rows * cols, _ => 0);
      attributes := seq(rows * cols, _ => 0);
      new;
      Clear();
    }

    /** `clear`: every character becomes a blank and every attribute none. */
    method Clear()
      modifies this
      ensures rows == old(rows) && cols == old(cols)
      ensures |characters| == |old(characters)| && |attributes| == |old(attributes)|
      ensures forall i :: 0 <= i < |characters| ==> characters[i] == SPACE
      ensures forall i :: 0 <= i < |attributes| ==> attributes[i] == ATTR_NONE
    {
      var i := 0;
      while i < |characters|
        invariant i <= |characters| == |old(characters)|
        invariant forall k :: 0 <= k < i ==> characters[k] == SPACE
        invariant rows == old(rows) && cols == old(cols) && attributes == old(attributes)
      {
        characters := characters[i := SPACE];
        i := i + 1;
      }
      i := 0;
      while i < |attributes|
        invariant i <= |attributes| == |old(attributes)| && |characters| == |old(characters)|
        invariant forall k :: 0 <= k < i ==> attributes[k] == ATTR_NONE
        invariant forall k :: 0 <= k < |characters| ==> characters[k] == SPACE
        invariant rows == old(rows) && cols == old(cols)
      {
        attributes := attributes[i := ATTR_NONE];
        i := i + 1;
      }
    }

    method SetChar(row: nat, col: nat, ch: bv8)
      requires Valid()
      modifies this
      ensures Value() == WithChar(old(Value()), row, col, ch)
    {
      if row < rows && col < cols {
        IndexInRange(row, col, rows, cols);
        characters := characters[Index(row, col, cols) := ch];
      }
    }

    method SetAttr(row: nat, col: nat, a: bv8)
      requires Valid()
      modifies this
      ensures Value() == WithAttr(old(Value()), row, col, a)
    {
      if row < rows && col < cols {
        IndexInRange(row, col, rows, cols);
        attributes := attributes[Index(row, col, cols) := a & ATTR_MASK];
      }
    }

    method SetChattr(row: nat, col: nat, ch: bv8, a: bv8)
      requires Valid()
      modifies this
      ensures Value() == WithChattr(old(Value()), row, col, ch, a)
    {
      if row < rows && col < cols {
        IndexInRange(row, col, rows, cols);
        characters := characters[Index(row, col, cols) := ch];
        attributes := attributes[Index(row, col, cols) := a];
      }
    }

    /**
     * `swap`: the two buffers exchange their bytes and keep their own
     * sizes. Slices of different lengths make the source panic.
     */
    method Swap(other: Buffer)
      requires other != this
      requires |characters| == |other.characters| && |attributes| == |other.attributes|
      modifies this, other
      ensures characters == old(other.characters) && other.characters == old(characters)
      ensures attributes == old(other.attributes) && other.attributes == old(attributes)
      ensures rows == old(rows) && cols == old(cols) && other.rows == old(other.rows) && other.cols == old(other.cols)
    {
      characters, other.characters := other.characters, characters;
      attributes, other.attributes := other.attributes, attributes;
    }

    /** `print`: one `set_char` and one `set_attr` per character, moving right. */
    method Print(row: nat, col: nat, attr: bv8, s: seq<char>)
      requires Valid()
      modifies this
      ensures Value() == Printed(old(Value()), row, col, attr, s)
    {
      var c := col;
      var i := 0;
      while i < |s|
        invariant i <= |s| && c == col + i && Valid()
        invariant Printed(Value(), row, c, attr, s[i..]) == Printed(old(Value()), row, col, attr, s)
      {
        assert s[i..][0] == s[i] && s[i..][1..] == s[i + 1..];
        SetChar(row, c, LowByte(s[i]));
        SetAttr(row, c, attr);
        c := c + 1;
        i := i + 1;
      }
      assert s[i..] == [];
    }

    /** One destination row of `copy_buffer`: source row `srow` from column `col`, wrapping at the destination width. */
    method CopyRow(srow: nat, col: nat, dst: Buffer, dr: nat)
      requires Valid() && dst.Valid() && dst != this && dr < dst.rows
      modifies dst
      ensures dst.Valid() && dst.rows == old(dst.rows) && dst.cols == old(dst.cols)
      ensures forall r: nat, c: nat :: r != dr ==>
        CharAt(dst.Value(), r, c) == CharAt(old(dst.Value()), r, c) && AttrAt(dst.Value(), r, c) == AttrAt(old(dst.Value()), r, c)
      ensures forall c: nat :: c < dst.cols ==>
        && CharAt(dst.Value(), dr, c) == CharAt(Value(), srow, SourceIndex(col, c, dst.cols))
        && AttrAt(dst.Value(), dr, c) == AttrAt(Value(), srow, SourceIndex(col, c, dst.cols)) & ATTR_MASK
    {
      var scol := col;
      var dc := 0;
      while dc < dst.cols
        invariant dc <= dst.cols && dst.Valid() && dst.rows == old(dst.rows) && dst.cols == old(dst.cols)
        invariant dst.cols >= 1 ==> scol == SourceIndex(col, dc, dst.cols)
        invariant forall r: nat, c: nat :: r != dr || dc <= c ==>
          CharAt(dst.Value(), r, c) == CharAt(old(dst.Value()), r, c) && AttrAt(dst.Value(), r, c) == AttrAt(old(dst.Value()), r, c)
        invariant forall c: nat :: c < dc ==>
          && CharAt(dst.Value(), dr, c) == CharAt(Value(), srow, SourceIndex(col, c, dst.cols))
          && AttrAt(dst.Value(), dr, c) == AttrAt(Value(), srow, SourceIndex(col, c, dst.cols)) & ATTR_MASK
      {
        ghost var g0 := dst.Value();
        dst.SetChar(dr, dc, CharAt(Value(), srow, scol));
        ghost var g1 := dst.Value();
        dst.SetAttr(dr, dc, AttrAt(Value(), srow, scol));
        forall r: nat, c: nat
          ensures CharAt(dst.Value(), r, c) == if r == dr && c == dc then CharAt(Value(), srow, scol) else CharAt(g0, r, c)
          ensures AttrAt(dst.Value(), r, c) == if r == dr && c == dc then AttrAt(Value(), srow, scol) & ATTR_MASK else AttrAt(g0, r, c)
        {
          CharAtWithChar(g0, dr, dc, CharAt(Value(), srow, scol), r, c);
          AttrAtWithAttr(g1, dr, dc, AttrAt(Value(), srow, scol), r, c);
        }
        SourceIndexStep(col, dc, dst.cols);
        scol := (scol + 1) % dst.cols;
        dc := dc + 1;
      }
    }

    /**
     * `copy_buffer`: every destination row from `dstRow` on is filled from
     * the source, which is read from (row, col) on, wrapping at the
     * destination's height and width; a source cell outside this buffer
     * reads as 0, and attributes are masked on the way. Rows above
     * `dstRow` are untouched.
     */
    method CopyBuffer(row: nat, col: nat, dst: Buffer, dstRow: nat)
      requires Valid() && dst.Valid() && dst != this
      modifies dst
      ensures dst.Valid() && dst.rows == old(dst.rows) && dst.cols == old(dst.cols)
      ensures forall r: nat, c: nat :: r < dstRow ==>
        CharAt(dst.Value(), r, c) == CharAt(old(dst.Value()), r, c) && AttrAt(dst.Value(), r, c) == AttrAt(old(dst.Value()), r, c)
      ensures forall r: nat, c: nat :: dstRow <= r < dst.rows && c < dst.cols ==>
        && CharAt(dst.Value(), r, c) == CharAt(Value(), SourceIndex(row, r - dstRow, dst.rows), SourceIndex(col, c, dst.cols))
        && AttrAt(dst.Value(), r, c) == AttrAt(Value(), SourceIndex(row, r - dstRow, dst.rows), SourceIndex(col, c, dst.cols)) & ATTR_MASK
    {
      if dstRow >= dst.rows {
        return;
      }
      var srow := row;
      var dr := dstRow;
      while dr < dst.rows
        invariant dstRow <= dr <= dst.rows && dst.Valid() && dst.rows == old(dst.rows) && dst.cols == old(dst.cols)
        invariant srow == SourceIndex(row, dr - dstRow, dst.rows)
        invariant forall r: nat, c: nat :: r < dstRow || dr <= r ==>
          CharAt(dst.Value(), r, c) == CharAt(old(dst.Value()), r, c) && AttrAt(dst.Value(), r, c) == AttrAt(old(dst.Value()), r, c)
        invariant forall r: nat, c: nat :: dstRow <= r < dr && c < dst.cols ==>
          && CharAt(dst.Value(), r, c) == CharAt(Value(), SourceIndex(row, r - dstRow, dst.rows), SourceIndex(col, c, dst.cols))
          && AttrAt(dst.Value(), r, c) == AttrAt(Value(), SourceIndex(row, r - dstRow, dst.rows), SourceIndex(col, c, dst.cols)) & ATTR_MASK
      {
        CopyRow(srow, col, dst, dr);
        SourceIndexStep(row, dr - dstRow, dst.rows);
        srow := (srow + 1) % dst.rows;
        dr := dr + 1;
      }
    }

    /** `copy_to`: a same-size destination becomes a byte-for-byte copy; other sizes make the source panic. */
    method CopyTo(dst: Buffer)
      requires Valid() && dst.Valid() && dst != this
      requires rows == dst.rows && cols == dst.cols
      modifies dst
      ensures dst.characters == characters && dst.attributes == attributes
      ensures dst.rows == old(dst.rows) && dst.cols == old(dst.cols)
    {
      var i := 0;
      while i < |characters|
        invariant i <= |characters| && |dst.characters| == |characters| && |dst.attributes| == |attributes|
        invariant forall j :: 0 <= j < i ==> dst.characters[j] == characters[j]
        invariant forall j :: 0 <= j < i ==> dst.attributes[j] == attributes[j]
        invariant dst.rows == old(dst.rows) && dst.cols == old(dst.cols)
      {
        dst.characters := dst.characters[i := characters[i]];
        dst.attributes := dst.attributes[i := attributes[i]];
        i := i + 1;
      }
    }
  }
}
