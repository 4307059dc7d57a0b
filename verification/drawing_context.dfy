/**
 * The coordinate functions of the drawing context: the address line
 * `[0, sectionWidth * sectionCount()]` is laid out as rows ("sections") of
 * `sectionWidth` pixels, one below the other, each `sectionHeight` pixels
 * high and separated by `distanceBetweenSections` pixels.
 */
module DrawingContext {
  import opened Wrappers
  import opened JavaInt
  import opened Model

  /** The integer fields of the canvas configuration. */
  datatype Configuration = Configuration(
    width: int,
    height: int,
    sectionWidth: int,
    sectionHeight: int,
    sectionStart: int,
    offsetY: int,
    distanceBetweenSections: int)
  {
    /** Rows are at least one pixel wide and high and never overlap. */
    predicate Valid()
    {
      sectionWidth >= 1 && sectionHeight >= 1 && distanceBetweenSections >= 0
    }

    /** The vertical distance between the tops of two consecutive rows. */
    function Pitch(): int
    {
      sectionHeight + distanceBetweenSections
    }
  }

  /** `builder(width, height).build()`: one row covering the whole canvas. */
  function DefaultConfiguration(width: int, height: int): (cfg: Configuration)
    ensures cfg.width == cfg.sectionWidth == width
    ensures cfg.height == cfg.sectionHeight == height
    ensures cfg.sectionStart == cfg.offsetY == cfg.distanceBetweenSections == 0
  {
    Configuration(width, height, width, height, 0, 0, 0)
  }

  // ---------------------------------------------------------------------
  // Integer helpers

  /** `ceilDiv(x, n)`, with Java's truncating division. */
  function CeilDiv(x: int, n: int): int
    requires n > 0
  {
    Div(x + n - 1, n)
  }

  /** For `x >= 0`, `ceilDiv(x, n)` is the least `r` with `x <= r * n`. */
  lemma CeilDivSpec(x: int, n: int)
    requires x >= 0 && n > 0
    ensures CeilDiv(x, n) >= 0
    ensures (CeilDiv(x, n) - 1) * n < x <= CeilDiv(x, n) * n
  {
    var r := (x + n - 1) / n;
    assert r * n + (x + n - 1) % n == x + n - 1;
    assert (r - 1) * n == r * n - n;
  }

  /** `a * c <= b * c` for `a <= b` and `c >= 0`. */
  lemma MulMonotone(a: int, b: int, c: int)
    requires a <= b && c >= 0
    ensures a * c <= b * c
  {
    assert b * c - a * c == (b - a) * c;
  }

  /** The Euclidean quotient is the `q` with `q * n <= a < q * n + n`. */
  lemma DivUnique(a: int, n: int, q: int)
    requires n > 0 && q * n <= a < q * n + n
    ensures a / n == q && a % n == a - q * n
  {
    var d := a / n;
    assert d * n + a % n == a;
    assert (q - 1) * n == q * n - n;
    assert (q + 1) * n == q * n + n;
    if d < q {
      MulMonotone(d, q - 1, n);
    } else if d > q {
      MulMonotone(q + 1, d, n);
    }
  }

  // ---------------------------------------------------------------------
  // Rows

  /** Row `k` lies wholly above the canvas line `h`. */
  predicate RowFits(cfg: Configuration, k: int, h: int)
  {
    cfg.offsetY + k * cfg.Pitch() + cfg.sectionHeight <= h
  }

  /** `sectionCount(height)`: how many rows fit above the canvas line `height`. */
  function SectionCountOf(cfg: Configuration, height: int): int
    requires cfg.Valid()
  {
    if height > cfg.offsetY then
      if Rem(height - cfg.offsetY - 1, cfg.Pitch()) >= cfg.sectionHeight - 1 then
        CeilDiv(height - cfg.offsetY, cfg.Pitch())
      else
        Div(height - cfg.offsetY, cfg.Pitch())
    else
      0
  }

  /** `sectionCount()`: the rows of the canvas. */
  function SectionCount(cfg: Configuration): int
    requires cfg.Valid()
  {
    SectionCountOf(cfg, cfg.height)
  }

  /** `sectionCount(h)` is exactly the number of rows `k >= 0` whose full height fits above `h`. */
  lemma SectionCountSpec(cfg: Configuration, h: int)
    requires cfg.Valid()
    ensures SectionCountOf(cfg, h) >= 0
    ensures forall k :: k >= 0 ==> (k < SectionCountOf(cfg, h) <==> RowFits(cfg, k, h))
  {
    var p, sh := cfg.Pitch(), cfg.sectionHeight;
    if h <= cfg.offsetY {
      forall k | k >= 0
        ensures !RowFits(cfg, k, h)
      {
        MulMonotone(0, k, p);
      }
    } else {
      var m := h - cfg.offsetY;
      var q, t := (m - 1) / p, (m - 1) % p;
      assert q * p + t == m - 1;
      assert q >= 0;
      var r := SectionCountOf(cfg, h);
      if t >= sh - 1 {
        DivUnique(m + p - 1, p, q + 1);
        assert r == q + 1;
        forall k | k >= 0
          ensures k < r <==> RowFits(cfg, k, h)
        {
          if k <= q {
            MulMonotone(k, q, p);
          } else {
            MulMonotone(q + 1, k, p);
            assert (q + 1) * p == q * p + p;
          }
        }
      } else {
        DivUnique(m, p, q);
        assert r == q;
        forall k | k >= 0
          ensures k < r <==> RowFits(cfg, k, h)
        {
          if k < q {
            MulMonotone(k, q - 1, p);
            assert (q - 1) * p == q * p - p;
          } else {
            MulMonotone(q, k, p);
          }
        }
      }
    }
  }

  /** No row fits at or above the top offset, and more rows fit on a taller canvas. */
  lemma SectionCountMonotone(cfg: Configuration, h1: int, h2: int)
    requires cfg.Valid()
    ensures h1 <= cfg.offsetY ==> SectionCountOf(cfg, h1) == 0
    ensures h1 <= h2 ==> SectionCountOf(cfg, h1) <= SectionCountOf(cfg, h2)
  {
    SectionCountSpec(cfg, h1);
    SectionCountSpec(cfg, h2);
    var r1 := SectionCountOf(cfg, h1);
    if h1 <= cfg.offsetY {
      assert !RowFits(cfg, 0, h1);
    }
    if h1 <= h2 && r1 > 0 {
      assert RowFits(cfg, r1 - 1, h1);
      assert RowFits(cfg, r1 - 1, h2);
    }
  }

  /** The default configuration has exactly one row when the canvas has any height. */
  lemma DefaultHasOneRow(width: int, height: int)
    requires width >= 1 && height >= 1
    ensures DefaultConfiguration(width, height).Valid()
    ensures SectionCount(DefaultConfiguration(width, height)) == 1
  {
    var cfg := DefaultConfiguration(width, height);
    SectionCountSpec(cfg, height);
    assert RowFits(cfg, 0, height);
    assert !RowFits(cfg, 1, height);
  }

  // ---------------------------------------------------------------------
  // The address line

  /** `getStart()`. */
  function GetStart(cfg: Configuration): Point
  {
    Point(0)
  }

  /** `getEnd()`: the line holds `sectionCount()` full rows. */
  function GetEnd(cfg: Configuration): Point
    requires cfg.Valid()
  {
    Point(cfg.sectionWidth * SectionCount(cfg))
  }

  /** `getSectionX(point, preferStart)` as the source writes it. */
  function SectionXAsWritten(cfg: Configuration, point: Point, preferStart: bool): int
    requires cfg.Valid()
  {
    if preferStart && point != GetEnd(cfg) then Rem(point.Center(), cfg.sectionWidth)
    else Rem(point.Center() - 1, cfg.sectionWidth) + 1
  }

  /**
   * With one-pixel rows, the coordinate 0 drawn in end-preferring mode gets
   * the offset 1 while its row is 0, so row and offset recompose to 1.
   */
  lemma SectionXAsWrittenMisplacesOrigin()
    ensures var cfg := DefaultConfiguration(1, 1);
      && cfg.Valid()
      && SectionY(cfg, Point(0), false) == 0
      && SectionXAsWritten(cfg, Point(0), false) == 1
      && SectionY(cfg, Point(0), false) * cfg.sectionWidth + SectionXAsWritten(cfg, Point(0), false) != 0
  {
  }

  /**
   * `getSectionX(point, preferStart)`: the offset of a coordinate in its row;
   * the coordinate 0 always has the offset 0.
   */
  function SectionX(cfg: Configuration, point: Point, preferStart: bool): int
    requires cfg.Valid()
  {
    if preferStart && point != GetEnd(cfg) then Rem(point.Center(), cfg.sectionWidth)
    else if point.Center() == 0 then 0
    else Rem(point.Center() - 1, cfg.sectionWidth) + 1
  }

  /** The corrected offset differs from the written one only for the coordinate 0 in one-pixel rows. */
  lemma SectionXCorrection(cfg: Configuration, point: Point, preferStart: bool)
    requires cfg.Valid()
    ensures SectionX(cfg, point, preferStart) != SectionXAsWritten(cfg, point, preferStart)
        <==> cfg.sectionWidth == 1 && point.x == 0 && !(preferStart && point != GetEnd(cfg))
  {
    if point.x == 0 && cfg.sectionWidth > 1 {
      DivRem(-1, cfg.sectionWidth);
    }
  }

  /** `getSectionY(point, preferStart)`: the row of a coordinate. */
  function SectionY(cfg: Configuration, point: Point, preferStart: bool): int
    requires cfg.Valid()
  {
    if preferStart && point != GetEnd(cfg) then Div(point.Center(), cfg.sectionWidth)
    else Div(Max(0, point.Center() - 1), cfg.sectionWidth)
  }

  /**
   * For a coordinate `x >= 0` the row and in-row offset recompose to `x`.
   * Preferring the start puts the offset in `[0, W)`; otherwise it is in
   * `[1, W]` for `x >= 1`, so a multiple of `W` is drawn at the end of the
   * previous row.
   */
  lemma SectionXYSpec(cfg: Configuration, point: Point, preferStart: bool)
    requires cfg.Valid() && point.x >= 0
    ensures SectionY(cfg, point, preferStart) * cfg.sectionWidth + SectionX(cfg, point, preferStart) == point.x
    ensures SectionY(cfg, point, preferStart) >= 0
    ensures preferStart && point != GetEnd(cfg) ==> 0 <= SectionX(cfg, point, preferStart) < cfg.sectionWidth
    ensures !(preferStart && point != GetEnd(cfg)) && point.x >= 1 ==> 1 <= SectionX(cfg, point, preferStart) <= cfg.sectionWidth
  {
    var w := cfg.sectionWidth;
    var x, y := SectionX(cfg, point, preferStart), SectionY(cfg, point, preferStart);
    if preferStart && point != GetEnd(cfg) {
      DivRem(point.x, w);
      assert x == Rem(point.x, w) && y == Div(point.x, w);
    } else if point.x >= 1 {
      DivRem(point.x - 1, w);
      assert x == Rem(point.x - 1, w) + 1 && y == Div(point.x - 1, w);
    }
    if y < 0 {
      MulMonotone(y, -1, w);
    }
  }

  /** The last coordinate of the line is drawn at the right end of the last row. */
  lemma EndIsEndOfLastRow(cfg: Configuration, preferStart: bool)
    requires cfg.Valid() && SectionCount(cfg) >= 1
    ensures SectionY(cfg, GetEnd(cfg), preferStart) == SectionCount(cfg) - 1
    ensures SectionX(cfg, GetEnd(cfg), preferStart) == cfg.sectionWidth
  {
    var w, n := cfg.sectionWidth, SectionCount(cfg);
    MulMonotone(1, n, w);
    DivUnique(w * n - 1, w, n - 1);
    assert (n - 1) * w == w * n - w;
  }

  // ---------------------------------------------------------------------
  // Canvas pixels to coordinates

  /** The canvas line `canvasY` lies in row `row`. */
  predicate InRow(cfg: Configuration, canvasY: int, row: int)
  {
    cfg.offsetY + row * cfg.Pitch() < canvasY <= cfg.offsetY + row * cfg.Pitch() + cfg.sectionHeight
  }

  /** The row a fitted pixel is attributed to. */
  function FitRow(cfg: Configuration, canvasY: int): int
    requires cfg.Valid()
  {
    if canvasY > cfg.offsetY + Div(cfg.distanceBetweenSections, 2) then
      if canvasY < cfg.height then SectionCountOf(cfg, canvasY - Div(cfg.distanceBetweenSections, 2))
      else SectionCount(cfg) - 1
    else
      0
  }

  /** The in-row offset of a fitted pixel. */
  function FitOffset(cfg: Configuration, canvasX: int): int
  {
    Min(Max(0, canvasX - cfg.sectionStart), cfg.sectionWidth)
  }

  /**
   * The fitted offset clamps the column into the row: `0` at or left of the
   * row's start, `w` at or right of its end, the offset from the start in
   * between.
   */
  lemma FitOffsetSpec(cfg: Configuration, canvasX: int)
    requires cfg.Valid()
    ensures 0 <= FitOffset(cfg, canvasX) <= cfg.sectionWidth
    ensures canvasX <= cfg.sectionStart ==> FitOffset(cfg, canvasX) == 0
    ensures canvasX >= cfg.sectionStart + cfg.sectionWidth ==> FitOffset(cfg, canvasX) == cfg.sectionWidth
    ensures cfg.sectionStart <= canvasX <= cfg.sectionStart + cfg.sectionWidth ==> FitOffset(cfg, canvasX) == canvasX - cfg.sectionStart
  {
  }

  /**
   * `getPoint(canvasX, canvasY, fitToSection)`: the coordinate under a canvas
   * pixel, or `null` (only without fitting) when the pixel lies off the rows.
   */
  function GetPoint(cfg: Configuration, canvasX: int, canvasY: int, fitToSection: bool): (r: Option<Point>)
    requires cfg.Valid()
    ensures fitToSection ==> r.Some?
  {
    if fitToSection then
      Some(Point(FitOffset(cfg, canvasX) + FitRow(cfg, canvasY) * cfg.sectionWidth))
    else if canvasX >= cfg.sectionStart
      && canvasX <= cfg.sectionStart + cfg.sectionWidth
      && canvasY > cfg.offsetY && canvasY < cfg.height
      && Rem(canvasY - cfg.offsetY - 1, cfg.Pitch()) <= cfg.sectionHeight - 1
    then
      Some(Point(canvasX - cfg.sectionStart + (CeilDiv(canvasY - cfg.offsetY, cfg.Pitch()) - 1) * cfg.sectionWidth))
    else
      None
  }

  /**
   * Fitting never fails: the offset is the column clamped into `[0, W]`
   * (`FitOffsetSpec`) and the row lies in `[-1, sectionCount()]`, `-1` only
   * on a canvas without any row.
   */
  lemma GetPointFitted(cfg: Configuration, canvasX: int, canvasY: int)
    requires cfg.Valid()
    ensures 0 <= FitOffset(cfg, canvasX) <= cfg.sectionWidth
    ensures canvasX <= cfg.sectionStart ==> FitOffset(cfg, canvasX) == 0
    ensures canvasX >= cfg.sectionStart + cfg.sectionWidth ==> FitOffset(cfg, canvasX) == cfg.sectionWidth
    ensures cfg.sectionStart <= canvasX <= cfg.sectionStart + cfg.sectionWidth ==> FitOffset(cfg, canvasX) == canvasX - cfg.sectionStart
    ensures -1 <= FitRow(cfg, canvasY) <= SectionCount(cfg)
    ensures FitRow(cfg, canvasY) == -1 ==> SectionCount(cfg) == 0
    ensures GetPoint(cfg, canvasX, canvasY, true).value.x
         == FitOffset(cfg, canvasX) + FitRow(cfg, canvasY) * cfg.sectionWidth
  {
    FitOffsetSpec(cfg, canvasX);
    var half := Div(cfg.distanceBetweenSections, 2);
    SectionCountSpec(cfg, cfg.height);
    if canvasY > cfg.offsetY + half && canvasY < cfg.height {
      SectionCountSpec(cfg, canvasY - half);
      SectionCountMonotone(cfg, canvasY - half, cfg.height);
    }
  }

  /** A fitted point can lie one full row past `getEnd()`. */
  lemma FittedPointPastEnd()
    ensures var cfg := Configuration(10, 25, 10, 10, 0, 0, 0);
      && cfg.Valid()
      && SectionCount(cfg) == 2
      && FitRow(cfg, 24) == SectionCount(cfg)
      && GetPoint(cfg, 5, 24, true) == Some(Point(25))
      && GetPoint(cfg, 5, 24, true).value.x > GetEnd(cfg).x
  {
    var cfg := Configuration(10, 25, 10, 10, 0, 0, 0);
    assert Rem(24, 10) == 4 && Div(25, 10) == 2;
    assert SectionCountOf(cfg, 25) == 2;
    assert Rem(23, 10) == 3 && Div(24, 10) == 2;
    assert FitRow(cfg, 24) == SectionCountOf(cfg, 24) == 2;
    assert GetEnd(cfg) == Point(20);
  }

  /**
   * Without fitting, a pixel inside row `row`, inside the canvas and inside
   * `[sectionStart, sectionStart + W]` resolves to `offset + row * W`; every
   * other pixel of that row resolves to `null`.
   */
  lemma GetPointInRow(cfg: Configuration, canvasX: int, canvasY: int, row: int)
    requires cfg.Valid() && row >= 0 && InRow(cfg, canvasY, row)
    ensures GetPoint(cfg, canvasX, canvasY, false)
         == if cfg.sectionStart <= canvasX <= cfg.sectionStart + cfg.sectionWidth && canvasY < cfg.height
            then Some(Point(canvasX - cfg.sectionStart + row * cfg.sectionWidth))
            else None
  {
    var p := cfg.Pitch();
    var m := canvasY - cfg.offsetY;
    MulMonotone(0, row, p);
    assert m >= 1;
    DivUnique(m - 1, p, row);
    DivUnique(m + p - 1, p, row + 1);
    assert (row + 1) * p == row * p + p;
  }

  /** Without fitting, a pixel above the first row or between two rows resolves to `null`. */
  lemma GetPointInGap(cfg: Configuration, canvasX: int, canvasY: int)
    requires cfg.Valid()
    requires forall row :: row >= 0 ==> !InRow(cfg, canvasY, row)
    ensures GetPoint(cfg, canvasX, canvasY, false) == None
  {
    var p := cfg.Pitch();
    var m := canvasY - cfg.offsetY;
    if m >= 1 {
      var q := (m - 1) / p;
      DivUnique(m - 1, p, q);
      assert q >= 0;
      assert !InRow(cfg, canvasY, q);
    }
  }
}
