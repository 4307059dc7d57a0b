/**
 * The first version of the measuring line (package `kweimann.mezzure`):
 * `IntervalsUtil` fixes the canvas layout as constants, points are
 * `(x, i)` pairs (offset `x` in row `i`), and every comparison goes through
 * the absolute position `absoluteX = x + i * sectionWidth()` on the line.
 * `Util.distance` measures between points and intervals.
 */
module LegacyGeometry {
  import opened Wrappers
  import opened JavaInt

  // ---------------------------------------------------------------------
  // IntervalsUtil: the layout constants

  const Width := 1000
  const Height := 3000
  const SectionStart := 100
  const SectionEnd := 900
  const SectionHeight := 100
  const OffsetY := 50
  const DistanceBetweenSections := 100

  /** `sectionWidth()`: `sectionEnd - sectionStart`. */
  const SectionWidth := 800

  /** The vertical distance between the tops of two consecutive rows. */
  const Pitch := 200

  /** The constants that are written as differences and sums in the source are those differences and sums. */
  lemma LayoutConstants()
    ensures SectionWidth == SectionEnd - SectionStart
    ensures Pitch == SectionHeight + DistanceBetweenSections
  {
  }

  /** `ceilDiv(x, n)`, with Java's truncating division. */
  function CeilDiv(x: int, n: int): int
    requires n > 0
  {
    Div(x + n - 1, n)
  }

  /** `sectionCount(Y)`: how many rows fit above the canvas line `Y`. */
  function SectionCountOf(y: int): int
  {
    if y > OffsetY then
      if Rem(y - OffsetY - 1, Pitch) >= SectionHeight - 1 then CeilDiv(y - OffsetY, Pitch)
      else Div(y - OffsetY, Pitch)
    else 0
  }

  /** `sectionCount()`: the rows of the whole canvas. */
  function SectionCount(): int
  {
    SectionCountOf(Height)
  }

  /**
   * `sectionCount(Y)` counts the rows `k >= 0` whose full height lies above
   * `Y`: it is `0` above the first row's bottom, and the canvas holds 15 rows.
   */
  lemma SectionCountSpec(y: int)
    ensures SectionCountOf(y) == if y < OffsetY + SectionHeight then 0 else (y - OffsetY - SectionHeight) / Pitch + 1
    ensures forall k :: k >= 0 ==> (k < SectionCountOf(y) <==> OffsetY + k * Pitch + SectionHeight <= y)
    ensures SectionCount() == 15
  {
    if y > OffsetY {
      var q, r := (y - 51) / 200, (y - 51) % 200;
      assert y == 200 * q + r + 51;
      if r >= 99 {
        assert (y + 149) / 200 == q + 1;
        assert (y - 150) / 200 == q;
      } else {
        assert (y - 50) / 200 == q;
        if q >= 1 {
          assert (y - 150) / 200 == q - 1;
        }
      }
    }
    var c := SectionCountOf(y);
    forall k | k >= 0
      ensures k < c <==> OffsetY + k * Pitch + SectionHeight <= y
    {
      if y >= 150 {
        var q := (y - 150) / 200;
        assert q * 200 <= y - 150 < q * 200 + 200;
        if k <= q {
          MulLe(k, q);
        } else {
          MulLe(q + 1, k);
        }
      }
    }
  }

  /** `a * 200 <= b * 200` for `a <= b`. */
  lemma MulLe(a: int, b: int)
    requires a <= b
    ensures a * 200 <= b * 200
  {
  }

  // ---------------------------------------------------------------------
  // Points

  /** `Point`: the offset `x` within the row `i`. */
  datatype Point = Point(x: int, i: int) {

    /** `IntervalsUtil.absoluteX(this)`: the position on the line. */
    function AbsoluteX(): int
    {
      x + i * SectionWidth
    }

    /** `distance(that)`: the signed distance to `that`. */
    function Distance(that: Point): int
    {
      that.AbsoluteX() - AbsoluteX()
    }

    /** `move(units, stickToStart)`: the point `units` further on, this very point for `0`. */
    function Move(units: int, stickToStart: bool): Point
    {
      if units == 0 then this else PointAt(AbsoluteX() + units, stickToStart)
    }

    /** `compareTo(that)`: `Double.compare` of the absolute positions. */
    function CompareTo(that: Point): int
    {
      if AbsoluteX() < that.AbsoluteX() then -1
      else if AbsoluteX() > that.AbsoluteX() then 1
      else 0
    }

    /** `equals(that)`: the same absolute position, whatever the row. */
    predicate Equals(that: Point)
    {
      AbsoluteX() == that.AbsoluteX()
    }
  }

  /** `IntervalsUtil.start`. */
  function Start(): Point
  {
    Point(0, 0)
  }

  /** `IntervalsUtil.end`: the right border of the last row. */
  function End(): Point
  {
    Point(SectionWidth, SectionCount() - 1)
  }

  /** The line runs from `0` to `12000`. */
  lemma LineBounds()
    ensures Start().AbsoluteX() == 0
    ensures End() == Point(800, 14) && End().AbsoluteX() == 12000
  {
    SectionCountSpec(Height);
  }

  /**
   * `IntervalsUtil.point(absoluteX, stickToStart)`: the point at a position;
   * at a multiple of the row width the point sits at the start of the next
   * row when `stickToStart`, at the end of the previous row otherwise.
   */
  function PointAt(absoluteX: int, stickToStart: bool): Point
  {
    if absoluteX == 0 then Start()
    else if stickToStart then Point(Rem(absoluteX, SectionWidth), Div(absoluteX, SectionWidth))
    else Point(Rem(absoluteX - 1, SectionWidth) + 1, Div(absoluteX - 1, SectionWidth))
  }

  /** `absoluteX(point(a, s)) == a` for every `a`, by Java's division identity. */
  lemma AbsoluteXOfPointAt(a: int, stickToStart: bool)
    ensures PointAt(a, stickToStart).AbsoluteX() == a
  {
    DivRem(a, SectionWidth);
    DivRem(a - 1, SectionWidth);
  }

  /**
   * The two row representations: on a positive multiple `k * sectionWidth`,
   * `stickToStart` gives `(0, k)` and otherwise `(sectionWidth, k - 1)`;
   * every other non-negative position has one representation, with the
   * offset inside the row.
   */
  lemma PointAtSpec(a: int)
    requires a >= 0
    ensures PointAt(0, true) == PointAt(0, false) == Start()
    ensures a > 0 && a % SectionWidth == 0 ==>
      PointAt(a, true) == Point(0, a / SectionWidth) && PointAt(a, false) == Point(SectionWidth, a / SectionWidth - 1)
    ensures a % SectionWidth != 0 ==>
      PointAt(a, true) == PointAt(a, false) && 0 < PointAt(a, true).x < SectionWidth
    ensures 0 <= PointAt(a, true).x < SectionWidth && PointAt(a, true).i >= 0
    ensures a > 0 ==> 1 <= PointAt(a, false).x <= SectionWidth && PointAt(a, false).i >= 0
  {
    if a > 0 {
      var q, r := a / 800, a % 800;
      assert a == 800 * q + r;
      if r == 0 {
        assert (a - 1) / 800 == q - 1 && (a - 1) % 800 == 799;
      } else {
        assert (a - 1) / 800 == q && (a - 1) % 800 == r - 1;
      }
    }
  }

  /** A point with its offset inside a row of a non-negative row index is its own `point(absoluteX, true)`. */
  lemma PointAtAbsoluteX(p: Point)
    requires 0 <= p.x < SectionWidth && p.i >= 0
    ensures PointAt(p.AbsoluteX(), true) == p
  {
    var a := p.AbsoluteX();
    assert a == 800 * p.i + p.x;
    assert a / 800 == p.i && a % 800 == p.x;
  }

  /**
   * `move(units, s)` lands `units` further on the line and `move(0, s)` is
   * the point itself; `distance` is antisymmetric.
   */
  lemma MoveSpec(p: Point, units: int, stickToStart: bool)
    ensures p.Move(units, stickToStart).AbsoluteX() == p.AbsoluteX() + units
    ensures p.Distance(p.Move(units, stickToStart)) == units
    ensures units == 0 ==> p.Move(units, stickToStart) == p
  {
    AbsoluteXOfPointAt(p.AbsoluteX() + units, stickToStart);
  }

  /** `compareTo` orders by absolute position and is `0` exactly on `equals`. */
  lemma CompareToSpec(p: Point, q: Point)
    ensures p.CompareTo(q) < 0 <==> p.AbsoluteX() < q.AbsoluteX()
    ensures p.CompareTo(q) == 0 <==> p.Equals(q)
    ensures p.CompareTo(q) == -q.CompareTo(p)
    ensures p.Distance(q) == -q.Distance(p)
  {
  }

  /** `equals` identifies the end of a row with the start of the next one. */
  lemma RowEdgeEquals(i: int)
    ensures Point(SectionWidth, i).Equals(Point(0, i + 1))
  {
  }

  // ---------------------------------------------------------------------
  // IntervalsUtil: from the canvas to the line

  /** `X(x)`: the canvas column of an offset. */
  function CanvasX(x: int): int
  {
    SectionStart + x
  }

  /** `Y(i)`: the canvas line of the top of row `i`. */
  function CanvasY(i: int): int
  {
    OffsetY + i * Pitch
  }

  /**
   * `translateX(X, fitToBorder)`: the offset of a canvas column, clamped to
   * the row when fitting, `-1` outside the row otherwise.
   */
  function TranslateX(canvasX: int, fitToBorder: bool): int
  {
    if fitToBorder then Min(Max(0, canvasX - SectionStart), SectionWidth)
    else if canvasX >= SectionStart && canvasX <= SectionEnd then canvasX - SectionStart
    else -1
  }

  /**
   * `translateI(Y, fitToBorder)`: the row of a canvas line, the nearest row
   * when fitting, `-1` outside every row otherwise.
   */
  function TranslateI(canvasY: int, fitToBorder: bool): int
  {
    if fitToBorder then
      if canvasY > OffsetY + Div(DistanceBetweenSections, 2) then
        if canvasY < Height then SectionCountOf(canvasY - Div(DistanceBetweenSections, 2))
        else SectionCount() - 1
      else 0
    else if canvasY > OffsetY && canvasY < Height && Rem(canvasY - OffsetY - 1, Pitch) <= SectionHeight - 1 then
      CeilDiv(canvasY - OffsetY, Pitch) - 1
    else -1
  }

  /** `point(X, Y, fitToBorder)`: null when the column or the row is `-1`. */
  function PointFromCanvas(canvasX: int, canvasY: int, fitToBorder: bool): (r: Option<Point>)
  {
    var x := TranslateX(canvasX, fitToBorder);
    var i := TranslateI(canvasY, fitToBorder);
    if x != -1 && i != -1 then Some(Point(x, i)) else None
  }

  /**
   * `translateX` clamps the column to `[0, sectionWidth]` when fitting (`0`
   * left of the row, `sectionWidth` right of it, the offset inside it), and
   * otherwise yields `-1` exactly outside `[sectionStart, sectionEnd]`;
   * `X` and `translateX` are inverse on the row.
   */
  lemma TranslateXSpec(canvasX: int, x: int)
    ensures 0 <= TranslateX(canvasX, true) <= SectionWidth
    ensures canvasX <= SectionStart ==> TranslateX(canvasX, true) == 0
    ensures canvasX >= SectionEnd ==> TranslateX(canvasX, true) == SectionWidth
    ensures SectionStart <= canvasX <= SectionEnd ==> TranslateX(canvasX, true) == TranslateX(canvasX, false) == canvasX - SectionStart
    ensures TranslateX(canvasX, false) == -1 <==> canvasX < SectionStart || canvasX > SectionEnd
    ensures 0 <= x <= SectionWidth ==> TranslateX(CanvasX(x), false) == x
  {
  }

  /**
   * Outside fitting, `translateI(Y)` is the row `row` exactly when `Y` lies
   * in that row's band `(Y(row), Y(row) + sectionHeight]` on the canvas.
   */
  lemma TranslateIRow(canvasY: int, row: int)
    requires row >= 0
    ensures TranslateI(canvasY, false) == row <==> CanvasY(row) < canvasY <= CanvasY(row) + SectionHeight && canvasY < Height
  {
    if canvasY > OffsetY {
      var q, r := (canvasY - 51) / 200, (canvasY - 51) % 200;
      assert canvasY == 200 * q + r + 51;
      assert (canvasY + 149) / 200 == q + 1;
      if q < row {
        MulLe(q + 1, row);
      } else if q > row {
        MulLe(row + 1, q);
      }
    }
  }

  /** Outside fitting, `translateI` is `-1` or a row of the canvas. */
  lemma TranslateIRange(canvasY: int)
    ensures TranslateI(canvasY, false) == -1 || 0 <= TranslateI(canvasY, false) < SectionCount()
  {
    SectionCountSpec(Height);
    var r := TranslateI(canvasY, false);
    if r != -1 {
      assert r >= 0 by {
        assert canvasY > OffsetY;
      }
      TranslateIRow(canvasY, r);
      assert OffsetY + r * Pitch + SectionHeight <= Height;
    }
  }

  /** When fitting, `translateI` is always a row of the canvas. */
  lemma TranslateIFitted(canvasY: int)
    ensures 0 <= TranslateI(canvasY, true) < SectionCount()
  {
    SectionCountSpec(Height);
    if canvasY > OffsetY + 50 && canvasY < Height {
      SectionCountSpec(canvasY - 50);
      assert !(OffsetY + 14 * Pitch + SectionHeight <= canvasY - 50);
    }
  }

  /**
   * `point(X, Y, fitToBorder)` is null exactly when `translateX` or
   * `translateI` is `-1`, never when fitting; a point it returns lies on the
   * line between `start` and `end`.
   */
  lemma PointFromCanvasSpec(canvasX: int, canvasY: int, fitToBorder: bool)
    ensures PointFromCanvas(canvasX, canvasY, fitToBorder).None? <==>
      TranslateX(canvasX, fitToBorder) == -1 || TranslateI(canvasY, fitToBorder) == -1
    ensures fitToBorder ==> PointFromCanvas(canvasX, canvasY, fitToBorder).Some?
    ensures PointFromCanvas(canvasX, canvasY, fitToBorder).Some? ==>
      0 <= PointFromCanvas(canvasX, canvasY, fitToBorder).value.AbsoluteX() <= End().AbsoluteX()
  {
    LineBounds();
    TranslateIRange(canvasY);
    TranslateIFitted(canvasY);
    var r := PointFromCanvas(canvasX, canvasY, fitToBorder);
    if r.Some? {
      var p := r.value;
      assert 0 <= p.x <= 800 && 0 <= p.i <= 14;
      assert p.i * 800 <= 14 * 800;
    }
  }

  // ---------------------------------------------------------------------
  // Intervals

  /** The two boundaries of an interval, as the constructor orders them. */
  datatype Span = Span(start: Point, end: Point) {

    /** `length()`: `start.distance(end)`. */
    function Length(): int
    {
      start.Distance(end)
    }

    /** `center()`: `start.move(length() / 2)`. */
    function Center(): Point
    {
      start.Move(Div(Length(), 2), true)
    }

    /** `contains(p)`: `start <= p <= end` in point order. */
    predicate Contains(p: Point)
    {
      start.CompareTo(p) <= 0 && end.CompareTo(p) >= 0
    }

    /** `equals(that)`: both boundaries are equal points. */
    predicate Equals(that: Span)
    {
      start.Equals(that.start) && end.Equals(that.end)
    }
  }

  /** An `Interval`: its start lies strictly before its end. */
  type Interval = s: Span | s.start.AbsoluteX() < s.end.AbsoluteX() witness Span(Point(0, 0), Point(1, 0))

  /** The position of the start of an interval. */
  function Lo(s: Span): int
  {
    s.start.AbsoluteX()
  }

  /** The position of the end of an interval. */
  function Hi(s: Span): int
  {
    s.end.AbsoluteX()
  }

  /** `new Interval(a, b)`: the points in `compareTo` order; `IllegalArgumentException` on equal points. */
  function NewInterval(a: Point, b: Point): (r: Result<Interval>)
    ensures r.Success? <==> !a.Equals(b)
    ensures r.Success? ==> Lo(r.value) == Min(a.AbsoluteX(), b.AbsoluteX()) && Hi(r.value) == Max(a.AbsoluteX(), b.AbsoluteX())
    ensures r.Success? ==> (r.value.start == a && r.value.end == b) || (r.value.start == b && r.value.end == a)
  {
    var compare := a.CompareTo(b);
    if compare < 0 then Success(Span(a, b))
    else if compare > 0 then Success(Span(b, a))
    else Failure(IllegalArgument)
  }

  /** `new Interval(a, b)` equals `new Interval(b, a)`. */
  lemma NewIntervalSymmetric(a: Point, b: Point)
    ensures NewInterval(a, b) == NewInterval(b, a)
  {
  }

  /** `length()` is the distance between the boundaries and at least 1; the centre lies in the interval. */
  lemma LengthAndCenter(iv: Interval)
    ensures iv.Length() == Hi(iv) - Lo(iv) >= 1
    ensures iv.Center().AbsoluteX() == Lo(iv) + iv.Length() / 2
    ensures Lo(iv) <= iv.Center().AbsoluteX() < Hi(iv)
  {
    MoveSpec(iv.start, Div(iv.Length(), 2), true);
  }

  /** `move(units)`: start moved with `stickToStart`, end without, both by `units`. */
  function MoveInterval(iv: Interval, units: int): (r: Interval)
    ensures Lo(r) == Lo(iv) + units && Hi(r) == Hi(iv) + units
    ensures r.Length() == iv.Length()
  {
    var a := iv.start.Move(units, true);
    var b := iv.end.Move(units, false);
    MoveSpec(iv.start, units, true);
    MoveSpec(iv.end, units, false);
    NewInterval(a, b).value
  }

  /**
   * `resize(startDifference, endDifference)`: both boundaries moved (with
   * `stickToStart`); `IllegalArgumentException` unless the new start lies
   * before the new end.
   */
  function Resize(iv: Interval, startDifference: int, endDifference: int): (r: Result<Interval>)
    ensures r.Success? <==> Lo(iv) + startDifference < Hi(iv) + endDifference
    ensures r.Success? ==> Lo(r.value) == Lo(iv) + startDifference && Hi(r.value) == Hi(iv) + endDifference
  {
    var start := iv.start.Move(startDifference, true);
    var end := iv.end.Move(endDifference, true);
    MoveSpec(iv.start, startDifference, true);
    MoveSpec(iv.end, endDifference, true);
    if start.CompareTo(end) >= 0 then Failure(IllegalArgument) else NewInterval(start, end)
  }

  /** `resize(difference)`: `resize(-difference, difference)`. */
  function ResizeBy(iv: Interval, difference: int): (r: Result<Interval>)
    ensures r == Resize(iv, -difference, difference)
    ensures r.Success? <==> iv.Length() + 2 * difference > 0
  {
    Resize(iv, -difference, difference)
  }

  // ---------------------------------------------------------------------
  // Elements

  /** The two kinds of `Element`. */
  datatype Element = PointElement(point: Point) | IntervalElement(interval: Interval)

  /**
   * `overlaps(element)`: two points overlap when equal; a point and an
   * interval when the interval contains it; two intervals when a boundary
   * of one lies in the other.
   */
  predicate Overlaps(a: Element, b: Element)
  {
    match (a, b)
    case (PointElement(p), PointElement(q)) => p.Equals(q)
    case (PointElement(p), IntervalElement(iv)) => iv.Contains(p)
    case (IntervalElement(iv), PointElement(p)) => iv.Contains(p)
    case (IntervalElement(iv), IntervalElement(that)) =>
      iv.Contains(that.start) || iv.Contains(that.end) || that.Contains(iv.start) || that.Contains(iv.end)
  }

  /**
   * `overlaps` is symmetric; for a point and an interval it is
   * `start <= p <= end`, and for two intervals it is sharing a position.
   */
  lemma OverlapsSpec(a: Element, b: Element)
    ensures Overlaps(a, b) <==> Overlaps(b, a)
    ensures a.PointElement? && b.PointElement? ==> (Overlaps(a, b) <==> a.point.Equals(b.point))
    ensures a.IntervalElement? && b.PointElement? ==>
      (Overlaps(a, b) <==> Lo(a.interval) <= b.point.AbsoluteX() <= Hi(a.interval))
    ensures a.IntervalElement? && b.IntervalElement? ==>
      (Overlaps(a, b) <==> Lo(a.interval) <= Hi(b.interval) && Lo(b.interval) <= Hi(a.interval))
  {
  }

  /** The order in which `Util.distance` reduces its cases. */
  function Rank(a: Element, b: Element): nat
  {
    (if a.IntervalElement? then 2 else 0) + (if b.IntervalElement? then 1 else 0)
  }

  /**
   * `Util.distance(e1, e2)`: the absolute distance of two points, and for
   * intervals the least distance over their boundaries.
   */
  function Distance(a: Element, b: Element): (r: nat)
    decreases Rank(a, b)
  {
    match (a, b)
    case (PointElement(p), PointElement(q)) => Abs(p.Distance(q))
    case (PointElement(_), IntervalElement(iv)) => Min(Distance(a, PointElement(iv.start)), Distance(a, PointElement(iv.end)))
    case (IntervalElement(_), PointElement(_)) => Distance(b, a)
    case (IntervalElement(iv), IntervalElement(_)) => Min(Distance(PointElement(iv.start), b), Distance(PointElement(iv.end), b))
  }

  /** The distance from a position to a boundary of an interval. */
  function PointGap(p: int, q: Point): nat
  {
    Abs(q.AbsoluteX() - p)
  }

  /** Between a point and an interval, in either order: the distance to the nearer boundary. */
  lemma PointIntervalDistance(p: Point, iv: Interval)
    ensures Distance(PointElement(p), IntervalElement(iv)) == Distance(IntervalElement(iv), PointElement(p))
      == Min(PointGap(p.AbsoluteX(), iv.start), PointGap(p.AbsoluteX(), iv.end))
  {
  }

  /** Between two intervals: the least of the four boundary distances. */
  lemma IntervalsDistance(iv: Interval, that: Interval)
    ensures Distance(IntervalElement(iv), IntervalElement(that)) == Min(
      Min(PointGap(iv.start.AbsoluteX(), that.start), PointGap(iv.start.AbsoluteX(), that.end)),
      Min(PointGap(iv.end.AbsoluteX(), that.start), PointGap(iv.end.AbsoluteX(), that.end)))
  {
    PointIntervalDistance(iv.start, that);
    PointIntervalDistance(iv.end, that);
  }

  /**
   * `Util.distance` is symmetric; between a point and an interval it is the
   * distance to the nearer boundary (so positive for an interior point),
   * and between two intervals the least of the four boundary distances.
   */
  lemma DistanceSpec(a: Element, b: Element)
    ensures Distance(a, b) == Distance(b, a)
    ensures a.PointElement? && b.PointElement? ==> Distance(a, b) == Abs(b.point.AbsoluteX() - a.point.AbsoluteX())
    ensures a.PointElement? && b.IntervalElement? ==>
      Distance(a, b) == Min(PointGap(a.point.AbsoluteX(), b.interval.start), PointGap(a.point.AbsoluteX(), b.interval.end))
    ensures a.PointElement? && b.IntervalElement? && Lo(b.interval) < a.point.AbsoluteX() < Hi(b.interval) ==> Distance(a, b) > 0
    ensures a.IntervalElement? && b.IntervalElement? ==>
      Distance(a, b) == Min(
        Min(PointGap(a.interval.start.AbsoluteX(), b.interval.start), PointGap(a.interval.start.AbsoluteX(), b.interval.end)),
        Min(PointGap(a.interval.end.AbsoluteX(), b.interval.start), PointGap(a.interval.end.AbsoluteX(), b.interval.end)))
  {
    DistanceSymmetric(a, b);
    match (a, b)
    case (PointElement(p), PointElement(q)) =>
    case (PointElement(p), IntervalElement(iv)) =>
      PointIntervalDistance(p, iv);
    case (IntervalElement(iv), PointElement(p)) =>
    case (IntervalElement(iv), IntervalElement(that)) =>
      IntervalsDistance(iv, that);
  }

  /** `Util.distance` does not depend on the order of its arguments. */
  lemma DistanceSymmetric(a: Element, b: Element)
    ensures Distance(a, b) == Distance(b, a)
  {
    match (a, b)
    case (PointElement(p), PointElement(q)) =>
    case (PointElement(p), IntervalElement(iv)) =>
    case (IntervalElement(iv), PointElement(p)) =>
    case (IntervalElement(iv), IntervalElement(that)) =>
      IntervalsDistance(iv, that);
      IntervalsDistance(that, iv);
      var s, e := iv.start.AbsoluteX(), iv.end.AbsoluteX();
      var s', e' := that.start.AbsoluteX(), that.end.AbsoluteX();
      assert PointGap(s, that.end) == PointGap(e', iv.start);
      assert PointGap(e, that.start) == PointGap(s', iv.end);
      MinRegroup(PointGap(s, that.start), PointGap(s, that.end), PointGap(e, that.start), PointGap(e, that.end));
  }

  /** The least of four values does not depend on how they are paired. */
  lemma MinRegroup(a: int, b: int, c: int, d: int)
    ensures Min(Min(a, b), Min(c, d)) == Min(Min(a, c), Min(b, d))
  {
  }
}
