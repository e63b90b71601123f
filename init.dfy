/**
 * Start-up options and the screen geometry derived from them
 * (video/src/init.rs): the `InitOptions` builder, the choice of scale, and
 * the number of character rows and columns the window holds. The SDL,
 * window, audio and mixer calls of `init` are not part of this model; the
 * display's size is a parameter.
 */
module Init {
  import opened Optional
  import CharmapTextures
  import Arithmetic

  /** Smallest window width and height an option may ask for. */
  const MIN_WINDOW_WIDTH: nat := 640
  const MIN_WINDOW_HEIGHT: nat := 480

  /** Largest scale, and the column count the automatic scale aims to stay within. */
  const MAX_SCALE: nat := 4
  const TARGET_COLUMNS: nat := 80

  /** One more than the largest `u32` and the largest `u16` (`Size`). */
  const U32: nat := 0x1_0000_0000
  const U16: nat := 0x1_0000

  /** Widths and heights are `usize`, maze sizes `Size`; all are natural numbers here. */
  datatype InitOptions = InitOptions(
    displayIndex: Option<nat>,
    windowWidth: Option<nat>,
    windowHeight: Option<nat>,
    scale: Option<nat>,
    mazeHeight: Option<nat>,
    mazeWidth: Option<nat>,
    density: Option<nat>,
    factories: Option<nat>,
    quiet: bool)

  /** `InitOptions::new`: every option unset, sound on. */
  function New(): (o: InitOptions)
    ensures o.displayIndex.None? && o.windowWidth.None? && o.windowHeight.None? && o.scale.None?
    ensures o.mazeHeight.None? && o.mazeWidth.None? && o.density.None? && o.factories.None?
    ensures !o.quiet
  {
    InitOptions(None, None, None, None, None, None, None, None, false)
  }

  /** `display_index`: a given index replaces the old one; none keeps it. */
  function DisplayIndex(o: InitOptions, index: Option<nat>): (r: InitOptions)
    ensures index.Some? ==> r.displayIndex == index
    ensures index.None? ==> r.displayIndex == o.displayIndex
    ensures r.(displayIndex := o.displayIndex) == o
  {
    if index.Some? then o.(displayIndex := index) else o
  }

  /** The largest multiple of `cell` not above `n`. */
  function RoundDown(n: nat, cell: nat): nat
    requires cell > 0
  {
    n - n % cell
  }

  /** Rounding down gives a multiple of the cell, at most `n` and less than a cell below it. */
  lemma RoundDownBounds(n: nat, cell: nat)
    requires cell > 0
    ensures RoundDown(n, cell) % cell == 0
    ensures RoundDown(n, cell) <= n < RoundDown(n, cell) + cell
  {
    assert n == cell * (n / cell) + n % cell;
    assert RoundDown(n, cell) == cell * (n / cell);
    Arithmetic.DivModUnique(RoundDown(n, cell), cell, n / cell, 0);
  }

  /**
   * `window_width`: a width of at least 640 is stored rounded down to a
   * whole number of character cells; a smaller width, or none, keeps the
   * old value.
   */
  function WindowWidth(o: InitOptions, width: Option<nat>): (r: InitOptions)
    ensures width.Some? && width.value >= MIN_WINDOW_WIDTH ==>
      && r.windowWidth.Some?
      && r.windowWidth.value % CharmapTextures.CHAR_CELL_WIDTH == 0
      && MIN_WINDOW_WIDTH <= r.windowWidth.value <= width.value < r.windowWidth.value + CharmapTextures.CHAR_CELL_WIDTH
    ensures !(width.Some? && width.value >= MIN_WINDOW_WIDTH) ==> r.windowWidth == o.windowWidth
    ensures r.(windowWidth := o.windowWidth) == o
  {
    match width
    case Some(w) =>
      if w >= MIN_WINDOW_WIDTH then
        RoundDownBounds(w, CharmapTextures.CHAR_CELL_WIDTH);
        o.(windowWidth := Some(RoundDown(w, CharmapTextures.CHAR_CELL_WIDTH)))
      else o
    case None => o
  }

  /**
   * `window_height`: a height of at least 480 is stored rounded down to a
   * whole number of character cells; a smaller height, or none, keeps the
   * old value.
   */
  function WindowHeight(o: InitOptions, height: Option<nat>): (r: InitOptions)
    ensures height.Some? && height.value >= MIN_WINDOW_HEIGHT ==>
      && r.windowHeight.Some?
      && r.windowHeight.value % CharmapTextures.CHAR_CELL_HEIGHT == 0
      && MIN_WINDOW_HEIGHT <= r.windowHeight.value <= height.value < r.windowHeight.value + CharmapTextures.CHAR_CELL_HEIGHT
    ensures !(height.Some? && height.value >= MIN_WINDOW_HEIGHT) ==> r.windowHeight == o.windowHeight
    ensures r.(windowHeight := o.windowHeight) == o
  {
    match height
    case Some(h) =>
      if h >= MIN_WINDOW_HEIGHT then
        RoundDownBounds(h, CharmapTextures.CHAR_CELL_HEIGHT);
        o.(windowHeight := Some(RoundDown(h, CharmapTextures.CHAR_CELL_HEIGHT)))
      else o
    case None => o
  }

  /** `scale`: the option is replaced, so none clears it. */
  function Scale(o: InitOptions, scale: Option<nat>): (r: InitOptions)
    ensures r.scale == scale && r.(scale := o.scale) == o
  {
    o.(scale := scale)
  }

  /** `maze_height`: the option is replaced, so none clears it. */
  function MazeHeight(o: InitOptions, mazeHeight: Option<nat>): (r: InitOptions)
    ensures r.mazeHeight == mazeHeight && r.(mazeHeight := o.mazeHeight) == o
  {
    o.(mazeHeight := mazeHeight)
  }

  /** `maze_width`: the option is replaced, so none clears it. */
  function MazeWidth(o: InitOptions, mazeWidth: Option<nat>): (r: InitOptions)
    ensures r.mazeWidth == mazeWidth && r.(mazeWidth := o.mazeWidth) == o
  {
    o.(mazeWidth := mazeWidth)
  }

  /** `density`: the option is replaced, so none clears it. */
  function Density(o: InitOptions, density: Option<nat>): (r: InitOptions)
    ensures r.density == density && r.(density := o.density) == o
  {
    o.(density := density)
  }

  /** `factories`: the option is replaced, so none clears it. */
  function Factories(o: InitOptions, factories: Option<nat>): (r: InitOptions)
    ensures r.factories == factories && r.(factories := o.factories) == o
  {
    o.(factories := factories)
  }

  /** `quiet`: the flag is replaced. */
  function Quiet(o: InitOptions, quiet: bool): (r: InitOptions)
    ensures r.quiet == quiet && r.(quiet := o.quiet) == o
  {
    o.(quiet := quiet)
  }

  /** The builders touch disjoint fields, so setting a width and then a height keeps the width. */
  lemma BuildersIndependent(o: InitOptions, w: nat, h: nat)
    requires w >= MIN_WINDOW_WIDTH && h >= MIN_WINDOW_HEIGHT
    ensures WindowHeight(WindowWidth(o, Some(w)), Some(h)).windowWidth == WindowWidth(o, Some(w)).windowWidth
    ensures WindowHeight(WindowWidth(o, Some(w)), Some(h)) == WindowWidth(WindowHeight(o, Some(h)), Some(w))
  {
  }

  // ---------------------------------------------------------------- the scale

  /** `scale.clamp(1, 4)`. */
  function Clamp(s: nat): (r: nat)
    ensures 1 <= r <= MAX_SCALE
    ensures 1 <= s <= MAX_SCALE ==> r == s
    ensures s < 1 ==> r == 1
    ensures s > MAX_SCALE ==> r == MAX_SCALE
  {
    if s < 1 then 1 else if s > MAX_SCALE then MAX_SCALE else s
  }

  /** Whether a window `width` pixels wide, at scale `s`, has at most 80 columns. */
  predicate Fits(width: nat, s: nat)
    requires s >= 1
  {
    width / s / CharmapTextures.CHAR_CELL_WIDTH <= TARGET_COLUMNS
  }

  /**
   * The `for scale in 1..=4` search from `s` on: the first scale that fits,
   * or 4 when none of them does.
   */
  function FirstFit(width: nat, s: nat): (r: nat)
    requires 1 <= s
    ensures s <= r <= MAX_SCALE || (s > MAX_SCALE && r == MAX_SCALE)
    ensures r >= 1
    ensures forall q :: s <= q < r && q <= MAX_SCALE ==> !Fits(width, q)
    ensures s <= MAX_SCALE ==> Fits(width, r) || (r == MAX_SCALE && !Fits(width, MAX_SCALE))
    decreases MAX_SCALE + 1 - s
  {
    if s > MAX_SCALE then MAX_SCALE
    else if Fits(width, s) then s
    else FirstFit(width, s + 1)
  }

  /**
   * The scale `init` chooses: an explicit scale clamped to 1..4; otherwise
   * the smallest scale at which the window is at most 80 columns wide, or
   * 4 when even that is too wide.
   */
  function ChooseScale(requested: Option<nat>, width: nat): (s: nat)
    ensures 1 <= s <= MAX_SCALE
    ensures requested.Some? ==> s == Clamp(requested.value)
    ensures requested.None? ==> forall q :: 1 <= q < s ==> !Fits(width, q)
    ensures requested.None? ==> Fits(width, s) || (s == MAX_SCALE && !Fits(width, MAX_SCALE))
  {
    match requested
    case Some(q) => Clamp(q)
    case None => FirstFit(width, 1)
  }

  /** A window at most 640 pixels wide is drawn at scale 1; one of 2560 or more needs more than scale 3. */
  lemma ScaleExamples()
    ensures ChooseScale(None, 640) == 1
    ensures ChooseScale(None, 1280) == 2
    ensures ChooseScale(None, 1920) == 3
    ensures ChooseScale(None, 2560) == 4
    ensures ChooseScale(None, 10000) == 4
  {
    assert Fits(640, 1);
    assert !Fits(1280, 1) && Fits(1280, 2);
    assert !Fits(1920, 1) && !Fits(1920, 2) && Fits(1920, 3);
    assert !Fits(2560, 1) && !Fits(2560, 2) && !Fits(2560, 3) && Fits(2560, 4);
    assert !Fits(10000, 1) && !Fits(10000, 2) && !Fits(10000, 3) && !Fits(10000, 4);
  }

  /** A wider window never gets a smaller automatic scale. */
  lemma {:induction false} FirstFitMonotone(w1: nat, w2: nat, s: nat)
    requires 1 <= s && w1 <= w2
    ensures FirstFit(w1, s) <= FirstFit(w2, s)
    decreases MAX_SCALE + 1 - s
  {
    if s <= MAX_SCALE && Fits(w1, s) {
    } else if s <= MAX_SCALE {
      DivMonotone(w1, w2, s);
      FirstFitMonotone(w1, w2, s + 1);
    }
  }

  /** Integer division by a positive number, twice, keeps the order. */
  lemma DivMonotone(a: nat, b: nat, s: nat)
    requires a <= b && s >= 1
    ensures a / s / CharmapTextures.CHAR_CELL_WIDTH <= b / s / CharmapTextures.CHAR_CELL_WIDTH
  {
    DivLe(a, b, s);
    DivLe(a / s, b / s, CharmapTextures.CHAR_CELL_WIDTH);
  }

  lemma DivLe(a: nat, b: nat, d: nat)
    requires a <= b && d >= 1
    ensures a / d <= b / d
  {
    if a / d > b / d {
      assert a == d * (a / d) + a % d;
      assert b == d * (b / d) + b % d;
      assert d * (a / d) >= d * (b / d + 1) by {
        Arithmetic.MulNonneg(d, a / d - (b / d + 1));
      }
      assert false;
    }
  }

  // ---------------------------------------------------------------- the geometry

  /** The window's extent: the option if given, else the display's, as a `u32`. */
  function Extent(option: Option<nat>, display: nat): (e: nat)
    ensures e < U32
    ensures option.None? && display < U32 ==> e == display
    ensures option.Some? && option.value < U32 ==> e == option.value
  {
    (match option case Some(v) => v case None => display) % U32
  }

  /** `height / CHAR_CELL_HEIGHT / scale` (or width by cell width), truncated to a `Size`. */
  function Cells(extent: nat, cell: nat, scale: nat): nat
    requires cell >= 1 && scale >= 1
  {
    extent / cell / scale % U16
  }

  /** What `init` derives before it opens the window. */
  datatype Geometry = Geometry(width: nat, height: nat, scale: nat, rows: nat, cols: nat)

  /** `init`'s window size, scale, rows and columns for a display of the given size. */
  function Layout(opts: InitOptions, displayWidth: nat, displayHeight: nat): (g: Geometry)
    ensures g.width == Extent(opts.windowWidth, displayWidth)
    ensures g.height == Extent(opts.windowHeight, displayHeight)
    ensures g.scale == ChooseScale(opts.scale, g.width)
    ensures g.rows == Cells(g.height, CharmapTextures.CHAR_CELL_HEIGHT, g.scale)
    ensures g.cols == Cells(g.width, CharmapTextures.CHAR_CELL_WIDTH, g.scale)
  {
    var width := Extent(opts.windowWidth, displayWidth);
    var height := Extent(opts.windowHeight, displayHeight);
    var scale := ChooseScale(opts.scale, width);
    Geometry(width, height, scale,
      Cells(height, CharmapTextures.CHAR_CELL_HEIGHT, scale),
      Cells(width, CharmapTextures.CHAR_CELL_WIDTH, scale))
  }

  /**
   * Without truncation, the cells fill the extent as far as whole cells
   * go: `n` cells of `cell · scale` pixels fit and one more does not.
   */
  lemma CellsFill(extent: nat, cell: nat, scale: nat)
    requires cell >= 1 && scale >= 1 && extent / cell / scale < U16
    ensures Cells(extent, cell, scale) * (cell * scale) <= extent
    ensures extent < (Cells(extent, cell, scale) + 1) * (cell * scale)
  {
    var q := extent / cell;
    var n := q / scale;
    Arithmetic.ModSmall(n, U16);
    NestedDivision(extent, cell, q, extent % cell, scale, n, q % scale);
  }

  /** `x = c·q + r` and `q = s·n + t` with remainders in range put `x` in the `n`-th block of `c·s`. */
  lemma NestedDivision(x: nat, c: nat, q: nat, r: nat, s: nat, n: nat, t: nat)
    requires r < c && t < s && x == c * q + r && q == s * n + t
    ensures n * (c * s) <= x < (n + 1) * (c * s)
  {
    assert c * q == c * (s * n) + c * t;
    assert c * (s * n) == (c * s) * n;
    assert c * t <= c * (s - 1) by {
      Arithmetic.MulNonneg(c, s - 1 - t);
    }
    assert c * (s - 1) + c == c * s;
    assert (n + 1) * (c * s) == n * (c * s) + c * s;
  }

  /**
   * For a window narrower than 8·65 536 = 524 288 pixels and lower than
   * 12·65 536 = 786 432 pixels the `Size` casts change nothing, and the
   * character grid at the chosen scale fits the window.
   */
  lemma GridFitsWindow(opts: InitOptions, displayWidth: nat, displayHeight: nat)
    requires displayWidth < U32 && displayHeight < U32
    requires Layout(opts, displayWidth, displayHeight).width < CharmapTextures.CHAR_CELL_WIDTH * U16
    requires Layout(opts, displayWidth, displayHeight).height < CharmapTextures.CHAR_CELL_HEIGHT * U16
    ensures var g := Layout(opts, displayWidth, displayHeight);
      && g.rows * (CharmapTextures.CHAR_CELL_HEIGHT * g.scale) <= g.height
      && g.cols * (CharmapTextures.CHAR_CELL_WIDTH * g.scale) <= g.width
  {
    var g := Layout(opts, displayWidth, displayHeight);
    var h, w := CharmapTextures.CHAR_CELL_HEIGHT, CharmapTextures.CHAR_CELL_WIDTH;
    DivLe(g.height, h * U16 - 1, h);
    DivShrinks(g.height / h, g.scale);
    DivLe(g.width, w * U16 - 1, w);
    DivShrinks(g.width / w, g.scale);
    CellsFill(g.height, h, g.scale);
    CellsFill(g.width, w, g.scale);
  }

  /** Dividing by a positive number does not increase. */
  lemma DivShrinks(a: nat, d: nat)
    requires d >= 1
    ensures a / d <= a
  {
    assert a == d * (a / d) + a % d;
    Arithmetic.MulNonneg(d - 1, a / d);
  }
}
