/**
 * The value types of package `model`: points and intervals on the integer
 * address line, and the capabilities they share as one-dimensional elements
 * (centre, length, overlap, displacement, distance).
 */
module Model {
  import opened Wrappers
  import opened JavaInt

  /** An immutable position on the address line (`model/Point`). */
  datatype Point = Point(x: int) {

    function Center(): int { x }

    function Length(): int { 0 }

    /** A new point `n` units to the right (to the left when `n < 0`). */
    function Move(n: int): Point { Point(x + n) }

    /** `Comparator.comparingInt(Point::center)`, which yields -1, 0 or 1. */
    function CompareTo(that: Point): int
    {
      if x < that.x then -1 else if x > that.x then 1 else 0
    }

    function HashCode(): int { x }
  }

  /** A pair of boundary points, in the order the interval stores them. */
  datatype Span = Span(start: Point, end: Point) {

    function Length(): int { end.Center() - start.Center() }

    /** The centre rounded down (Java's `/` on a positive length). */
    function Center(): int { start.Center() + Div(Length(), 2) }

    /** Both boundaries shifted by `n`; the length is kept. */
    function Move(n: int): (r: Span)
      ensures r.Length() == Length()
    {
      Span(start.Move(n), end.Move(n))
    }

    /**
     * The start moved by `startDifference` and the end by `endDifference`;
     * `IllegalArgumentException` unless the new start stays before the new end.
     */
    function Resize(startDifference: int, endDifference: int): (r: Result<Interval>)
      ensures r.Success? <==> start.x + startDifference < end.x + endDifference
      ensures r.Success? ==>
        r.value.start == start.Move(startDifference) && r.value.end == end.Move(endDifference)
    {
      var s := start.Move(startDifference);
      var e := end.Move(endDifference);
      if s.Center() >= e.Center() then Failure(IllegalArgument) else NewInterval(s, e)
    }

    /** Grows (or shrinks, when negative) the span by `difference` on both sides. */
    function ResizeBy(difference: int): Result<Interval>
    {
      Resize(-difference, difference)
    }

    function HashCode(): int
    {
      var result := 1;
      var result' := 37 * result + start.HashCode();
      37 * result' + end.HashCode()
    }
  }

  /** `model/Interval`: its start lies strictly before its end. */
  type Interval = s: Span | s.start.x < s.end.x witness Span(Point(0), Point(1))

  /**
   * The constructor `Interval(a, b)`: accepts the boundaries in either order
   * and throws `IllegalArgumentException` when they coincide.
   */
  function NewInterval(a: Point, b: Point): (r: Result<Interval>)
    ensures r.Success? <==> a.x != b.x
    ensures r.Success? ==> {r.value.start, r.value.end} == {a, b}
  {
    if a.Center() < b.Center() then Success(Span(a, b))
    else if a.Center() > b.Center() then Success(Span(b, a))
    else Failure(IllegalArgument)
  }

  /** The interface `Element1D`, implemented by points and intervals. */
  datatype Element1D = PointElement(point: Point) | IntervalElement(interval: Interval) {

    function Center(): int
    {
      match this
      case PointElement(p) => p.Center()
      case IntervalElement(i) => i.Center()
    }

    function Length(): int
    {
      match this
      case PointElement(p) => p.Length()
      case IntervalElement(i) => i.Length()
    }

    /** The leftmost coordinate the element covers. */
    function Lo(): int
    {
      match this
      case PointElement(p) => p.x
      case IntervalElement(i) => i.start.x
    }

    /** The rightmost coordinate the element covers. */
    function Hi(): int
    {
      match this
      case PointElement(p) => p.x
      case IntervalElement(i) => i.end.x
    }

    /** Twice the exact centre, which avoids a fractional centre. */
    function DoubledCenter(): int
    {
      Center() * 2 + (if Rem(Length(), 2) == 0 then 0 else 1)
    }

    predicate Overlaps(that: Element1D)
    {
      Abs(that.DoubledCenter() - DoubledCenter()) <= that.Length() + Length()
    }

    /** The signed gap between the outer points of the two elements, 0 when they overlap. */
    function Displacement(that: Element1D): int
    {
      var thisCenter := DoubledCenter();
      var thatCenter := that.DoubledCenter();
      if Abs(thatCenter - thisCenter) > that.Length() + Length() then
        if thatCenter >= thisCenter
        then Div((thatCenter - that.Length()) - (thisCenter + Length()), 2)
        else Div((thatCenter + that.Length()) - (thisCenter - Length()), 2)
      else 0
    }

    function Distance(that: Element1D): int
    {
      Abs(Displacement(that))
    }
  }

  // ---------------------------------------------------------------------
  // Element1D

  /** The doubled centre is the sum of the two outer coordinates. */
  lemma DoubledCenterIsSum(e: Element1D)
    ensures e.Lo() <= e.Hi()
    ensures e.DoubledCenter() == e.Lo() + e.Hi()
    ensures e.Length() == e.Hi() - e.Lo()
  {
    if e.IntervalElement? {
      var len := e.interval.Length();
      DivRem(len, 2);
      assert Div(len, 2) * 2 + Rem(len, 2) == len;
    }
  }

  /** Two elements overlap exactly when their closed spans share a coordinate. */
  lemma OverlapsIffShare(a: Element1D, b: Element1D)
    ensures a.Overlaps(b) <==> a.Lo() <= b.Hi() && b.Lo() <= a.Hi()
  {
    DoubledCenterIsSum(a);
    DoubledCenterIsSum(b);
  }

  lemma OverlapsSymmetric(a: Element1D, b: Element1D)
    ensures a.Overlaps(b) == b.Overlaps(a)
  {
    OverlapsIffShare(a, b);
    OverlapsIffShare(b, a);
  }

  /**
   * The displacement is the gap from `a`'s right end to `b`'s start when `b`
   * lies wholly to the right, the (negative) gap from `a`'s start to `b`'s end
   * when `b` lies wholly to the left, and 0 when they overlap.
   */
  lemma DisplacementSpec(a: Element1D, b: Element1D)
    ensures a.Hi() < b.Lo() ==> a.Displacement(b) == b.Lo() - a.Hi() > 0
    ensures b.Hi() < a.Lo() ==> a.Displacement(b) == b.Hi() - a.Lo() < 0
    ensures a.Overlaps(b) <==> a.Displacement(b) == 0
  {
    DoubledCenterIsSum(a);
    DoubledCenterIsSum(b);
    OverlapsIffShare(a, b);
    var thisCenter, thatCenter := a.DoubledCenter(), b.DoubledCenter();
    if Abs(thatCenter - thisCenter) > b.Length() + a.Length() {
      if thatCenter >= thisCenter {
        assert (thatCenter - b.Length()) - (thisCenter + a.Length()) == 2 * (b.Lo() - a.Hi());
      } else {
        var n := (thatCenter + b.Length()) - (thisCenter - a.Length());
        assert n == 2 * (b.Hi() - a.Lo()) < 0;
        assert Div(n, 2) == b.Hi() - a.Lo();
      }
    }
  }

  lemma DisplacementAntisymmetric(a: Element1D, b: Element1D)
    ensures a.Displacement(b) == -b.Displacement(a)
  {
    DisplacementSpec(a, b);
    DisplacementSpec(b, a);
    OverlapsSymmetric(a, b);
  }

  /** The distance is the size of the displacement: never negative, 0 exactly on overlap. */
  lemma DistanceSpec(a: Element1D, b: Element1D)
    ensures a.Distance(b) >= 0
    ensures a.Distance(b) == 0 <==> a.Overlaps(b)
    ensures a.Distance(b) == b.Distance(a)
  {
    DisplacementSpec(a, b);
    DisplacementAntisymmetric(a, b);
  }

  // ---------------------------------------------------------------------
  // Point

  lemma PointMove(p: Point, a: int, b: int)
    ensures p.Move(a).x == p.x + a
    ensures p.Move(0) == p
    ensures p.Move(a).Move(b) == p.Move(a + b)
  {
  }

  /** `compareTo` orders by coordinate and is 0 exactly when `equals` holds; `hashCode` agrees. */
  lemma PointCompareTo(p: Point, q: Point)
    ensures p.CompareTo(q) < 0 <==> p.x < q.x
    ensures p.CompareTo(q) == 0 <==> p == q
    ensures p.CompareTo(q) == -q.CompareTo(p)
    ensures p == q ==> p.HashCode() == q.HashCode()
  {
  }

  /** Two points overlap iff they coincide; the displacement from `p` to `q` is `q.x - p.x`. */
  lemma PointOverlapsAndDisplacement(p: Point, q: Point)
    ensures PointElement(p).Overlaps(PointElement(q)) <==> p == q
    ensures PointElement(p).Displacement(PointElement(q)) == q.x - p.x
    ensures PointElement(p).Distance(PointElement(q)) == Abs(q.x - p.x)
  {
    DisplacementSpec(PointElement(p), PointElement(q));
  }

  /** A point overlaps an interval iff the interval's closed span contains it. */
  lemma PointInInterval(p: Point, i: Interval)
    ensures PointElement(p).Overlaps(IntervalElement(i)) <==> i.start.x <= p.x <= i.end.x
    ensures IntervalElement(i).Overlaps(PointElement(p)) <==> i.start.x <= p.x <= i.end.x
  {
    OverlapsIffShare(PointElement(p), IntervalElement(i));
    OverlapsIffShare(IntervalElement(i), PointElement(p));
  }

  /** Two intervals overlap iff neither ends before the other starts (touching ends overlap). */
  lemma IntervalsOverlap(i: Interval, j: Interval)
    ensures IntervalElement(i).Overlaps(IntervalElement(j)) <==> i.start.x <= j.end.x && j.start.x <= i.end.x
  {
    OverlapsIffShare(IntervalElement(i), IntervalElement(j));
  }

  // ---------------------------------------------------------------------
  // Interval

  /** Construction ignores the order of its arguments and normalises to `start < end`. */
  lemma NewIntervalSymmetric(a: Point, b: Point)
    ensures NewInterval(a, b) == NewInterval(b, a)
    ensures NewInterval(a, b).Success? ==>
      NewInterval(a, b).value.start.x == Min(a.x, b.x) && NewInterval(a, b).value.end.x == Max(a.x, b.x)
  {
  }

  /** The length is the positive distance between the boundaries; the centre lies in `[start, end)`. */
  lemma IntervalLengthAndCenter(i: Interval)
    ensures i.Length() == i.end.x - i.start.x >= 1
    ensures i.Center() == i.start.x + i.Length() / 2
    ensures i.start.x <= i.Center() < i.end.x
  {
  }

  /** Moving shifts both boundaries and keeps the length. */
  lemma IntervalMove(i: Interval, n: int)
    ensures i.Move(n).start.x == i.start.x + n && i.Move(n).end.x == i.end.x + n
    ensures i.Move(n).Length() == i.Length()
    ensures i.Move(0) == i
  {
  }

  /** `resize(d)` is `resize(-d, d)`, and fails iff the interval would vanish or invert. */
  lemma IntervalResizeBy(i: Interval, d: int)
    ensures i.ResizeBy(d) == i.Resize(-d, d)
    ensures i.ResizeBy(d).Success? <==> i.Length() + 2 * d > 0
  {
  }

  /** Equal intervals have equal hash codes. */
  lemma IntervalHashCode(i: Interval, j: Interval)
    ensures i == j ==> i.HashCode() == j.HashCode()
    ensures i.HashCode() == 1369 + 37 * i.start.x + i.end.x
  {
  }
}
